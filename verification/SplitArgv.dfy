/**
 Splitting a console line into arguments in place. The imperative splitter overwrites the line it reads and
 records where each argument starts; it is proved to compute a pure tokenizer, and the tokenizer is proved to
 undo printing.
 */
module SplitArgv {
  import opened Common

  type Text = seq<Byte>

  const NUL: Byte := 0
  const SPACE: Byte := 32
  const QUOTE: Byte := 34
  const ESCAPE: Byte := 92

  /** The five states of the source: between arguments, in a plain or quoted one, and each after a backslash. */
  datatype Mode = InSpace | InArg | InQuoted | ArgEscaped | QuotedEscaped

  /** `current` is the argument being read, `args` those already complete. */
  datatype Scan = Scan(mode: Mode, current: Text, args: seq<Text>)

  predicate Special(c: Byte) {
    c == ESCAPE || c == QUOTE || c == SPACE
  }

  function Ended(s: Scan): Scan {
    Scan(InSpace, [], s.args + [s.current])
  }

  /** One character. */
  function Feed(s: Scan, c: Byte): Scan {
    match s.mode
    case InSpace =>
      if c == SPACE then s
      else if c == QUOTE then s.(mode := InQuoted)
      else if c == ESCAPE then s.(mode := ArgEscaped)
      else s.(mode := InArg, current := s.current + [c])
    case InQuoted =>
      if c == QUOTE then Ended(s)
      else if c == ESCAPE then s.(mode := QuotedEscaped)
      else s.(current := s.current + [c])
    case InArg =>
      if c == SPACE then Ended(s)
      else if c == ESCAPE then s.(mode := ArgEscaped)
      else s.(current := s.current + [c])
    case _ =>
      // an escape that is not recognized disappears
      s.(mode := if s.mode == ArgEscaped then InArg else InQuoted,
      current := if Special(c) then s.current + [c] else s.current)
  }

  function Fresh(): Scan {
    Scan(InSpace, [], [])
  }

  /** Reads `text` until `max` arguments are complete. */
  function Run(s: Scan, text: Text, max: nat): Scan
    decreases |text|
  {
    if text == [] || |s.args| >= max then s else Run(Feed(s, text[0]), text[1..], max)
  }

  /** The last argument needs no separator after it. */
  function Finish(s: Scan, max: nat): seq<Text> {
    if s.mode != InSpace && |s.args| < max then s.args + [s.current] else s.args
  }

  function Split(text: Text, max: nat): seq<Text> {
    Finish(Run(Fresh(), text, max), max)
  }

  // ---------------------------------------------------------------------------------------------
  // The splitter in place
  // ---------------------------------------------------------------------------------------------

  /** The arguments as they lie in memory, each with its terminating NUL. */
  function Flat(args: seq<Text>): Text {
    if args == [] then [] else Flat(args[..|args| - 1]) + args[|args| - 1] + [NUL]
  }

  lemma FlatSnoc(args: seq<Text>, a: Text)
    ensures Flat(args + [a]) == Flat(args) + a + [NUL]
  {
    assert (args + [a])[..|args|] == args;
  }

  lemma {:induction false} FlatPrefix(args: seq<Text>, k: nat)
    requires k < |args|
    ensures |Flat(args[..k])| + |args[k]| < |Flat(args)|
    ensures Flat(args)[..|Flat(args[..k])| + |args[k]| + 1] == Flat(args[..k]) + args[k] + [NUL]
    decreases |args|
  {
    var last := |args| - 1;
    if k < last {
      assert args[..last][..k] == args[..k];
      FlatPrefix(args[..last], k);
    }
  }

  predicate Clean(t: Text) {
    NUL !in t
  }

  /** A C string at offset `at`. */
  ghost predicate StringAt(buf: Text, at: int, t: Text) {
    0 <= at && at + |t| < |buf| && buf[at..at + |t|] == t && buf[at + |t|] == NUL && Clean(t)
  }

  /** argv holds the offset of each argument. */
  predicate Indexed(argv: seq<int>, args: seq<Text>) {
    |args| <= |argv| && forall k | 0 <= k < |args| :: argv[k] == |Flat(args[..k])|
  }

  predicate AllClean(args: seq<Text>) {
    forall k | 0 <= k < |args| :: Clean(args[k])
  }

  lemma StringAfter(buf: Text, pre: Text, t: Text)
    requires |pre| + |t| < |buf| && buf[..|pre| + |t| + 1] == pre + t + [NUL] && Clean(t)
    ensures StringAt(buf, |pre|, t)
  {
    var n := |pre| + |t|;
    assert forall j | 0 <= j <= n :: buf[j] == (pre + t + [NUL])[j];
    assert buf[|pre|..n] == t;
  }

  /** Through argv, the memory holds exactly the arguments, in order and disjoint. */
  lemma ArgvReads(buf: Text, argv: seq<int>, args: seq<Text>, k: nat)
    requires Complete(buf, argv, args) && k < |args|
    ensures StringAt(buf, argv[k], args[k]) && argv[k] + |args[k]| < |Flat(args)|
    ensures k + 1 < |args| ==> argv[k] + |args[k]| < argv[k + 1]
  {
    FlatPrefix(args, k);
    PrefixOfPrefix(buf, |Flat(args)|, |Flat(args[..k])| + |args[k]| + 1);
    StringAfter(buf, Flat(args[..k]), args[k]);
    if k + 1 < |args| {
      FlatNext(args, k);
    }
  }

  lemma PrefixOfPrefix(buf: Text, n: nat, m: nat)
    requires m <= n <= |buf|
    ensures buf[..n][..m] == buf[..m]
  {
  }

  lemma FlatNext(args: seq<Text>, k: nat)
    requires k < |args|
    ensures |Flat(args[..k + 1])| == |Flat(args[..k])| + |args[k]| + 1
  {
    assert args[..k + 1] == args[..k] + [args[k]];
    FlatSnoc(args[..k], args[k]);
  }

  /** How far output has got: the complete arguments and then the current one. */
  predicate Laid(buf: Text, out: nat, s: Scan) {
    out <= |buf| && buf[..out] == Flat(s.args) + s.current
  }

  predicate ScanInv(s: Scan) {
    AllClean(s.args) && Clean(s.current) && (s.mode == InSpace ==> s.current == [])
  }

  /** What one character does to the output: at most one byte, and a new argument start when one begins. */
  lemma FeedEmits(s: Scan, c: Byte)
    requires ScanInv(s) && c != NUL
    ensures ScanInv(Feed(s, c))
    ensures var s1 := Feed(s, c);
            || (s1.args == s.args && (s1.current == s.current || s1.current == s.current + [c]))
            || (s1.args == s.args + [s.current] && s1.current == [])
  {
  }

  lemma IndexedSnoc(argv: seq<int>, args: seq<Text>, a: Text)
    requires Indexed(argv, args) && |args| < |argv| && argv[|args|] == |Flat(args)|
    ensures Indexed(argv, args + [a])
  {
    forall k | 0 <= k <= |args|
      ensures argv[k] == |Flat((args + [a])[..k])|
    {
      assert (args + [a])[..k] == args[..k];
      assert args[..|args|] == args;
    }
  }

  lemma RunStep(s: Scan, text: Text, i: nat, max: nat)
    requires i < |text| && |s.args| < max
    ensures Run(s, text[i..], max) == Run(Feed(s, text[i]), text[i + 1..], max)
  {
    assert text[i..][1..] == text[i + 1..];
  }

  /** END_ARG and the write that follows it, or the write of one character. */
  method Put(line: array<Byte>, out: nat, c: Byte, ghost s: Scan, ghost s1: Scan)
    requires out < line.Length && Laid(line[..], out, s)
    requires if c == NUL then s1.args == s.args + [s.current] && s1.current == []
             else s1.args == s.args && s1.current == s.current + [c]
    modifies line
    ensures Laid(line[..], out + 1, s1)
    ensures forall j | 0 <= j < line.Length && j != out :: line[j] == old(line[j])
  {
    line[out] := c;
    assert line[..out + 1] == old(line[..out]) + [c];
    if c == NUL {
      FlatSnoc(s.args, s.current);
    }
  }

  /** The state machine of the source: the next mode, the byte to write if any, and whether an argument starts. */
  method Decide(mode: Mode, c: Byte, ghost s: Scan) returns (mode1: Mode, emit: Option<Byte>, starts: bool)
    requires s.mode == mode && c != NUL && ScanInv(s)
    ensures mode1 == Feed(s, c).mode
    ensures starts <==> mode == InSpace && mode1 != InSpace
    ensures match emit
            case None => Feed(s, c).args == s.args && Feed(s, c).current == s.current
            case Some(b) =>
              if b == NUL then Feed(s, c) == Ended(s)
              else b == c && Feed(s, c).args == s.args && Feed(s, c).current == s.current + [c]
  {
    mode1, emit, starts := mode, None, false;
    match mode {
      case InSpace =>
        if c == SPACE {
        } else if c == QUOTE {
          mode1, starts := InQuoted, true;
        } else if c == ESCAPE {
          mode1, starts := ArgEscaped, true;
        } else {
          mode1, starts, emit := InArg, true, Some(c);
        }
      case InQuoted =>
        if c == QUOTE {
          mode1, emit := InSpace, Some(NUL);
        } else if c == ESCAPE {
          mode1 := QuotedEscaped;
        } else {
          emit := Some(c);
        }
      case InArg =>
        if c == SPACE {
          mode1, emit := InSpace, Some(NUL);
        } else if c == ESCAPE {
          mode1 := ArgEscaped;
        } else {
          emit := Some(c);
        }
      case _ =>
        if Special(c) {
          emit := Some(c);
        }
        mode1 := if mode == ArgEscaped then InArg else InQuoted;
    }
  }

  /** Everything the loop keeps: where things are, and that the writes have not overtaken the reads. */
  ghost predicate Keeps(buf: Text, argv: seq<int>, mode: Mode, out: nat, argc: nat, start: nat, s: Scan) {
    && ScanInv(s) && s.mode == mode && |s.args| == argc
    && Laid(buf, out, s) && Indexed(argv, s.args)
    && (mode != InSpace ==> start == |Flat(s.args)|)
  }

  /** esp_console_split_argv; `end` is where the line's NUL is, -1 stands for a NULL pointer. */
  method SplitInPlace(line: array<Byte>, argv: array<int>, ghost end: nat) returns (argc: nat)
    requires argv.Length >= 1
    requires end < line.Length && line[end] == NUL && Clean(line[..end])
    modifies line, argv
    ensures var args := Split(old(line[..end]), argv.Length - 1);
            && argc == |args| <= argv.Length - 1
            && (forall k | 0 <= k < argc :: StringAt(line[..], argv[k], args[k]) && argv[k] + |args[k]| <= end)
            && (forall k | 0 <= k < argc - 1 :: argv[k] + |args[k]| < argv[k + 1])
    ensures argv[argc] == -1
    ensures forall j | end < j < line.Length :: line[j] == old(line[j])
    ensures forall j | argc < j < argv.Length :: argv[j] == old(argv[j])
  {
    var mode, out, start;
    ghost var s;
    mode, out, argc, start, s := Tokenize(line, argv, end);
    argc := Terminate(line, argv, mode, out, argc, start, s);
    AllRead(line[..], argv[..], Finish(s, argv.Length - 1));
  }

  /** The loop. */
  method Tokenize(line: array<Byte>, argv: array<int>, ghost end: nat)
    returns (mode: Mode, out: nat, argc: nat, start: nat, ghost s: Scan)
    requires argv.Length >= 1
    requires end < line.Length && line[end] == NUL && Clean(line[..end])
    modifies line, argv
    ensures s == Run(Fresh(), old(line[..end]), argv.Length - 1)
    ensures Keeps(line[..], argv[..], mode, out, argc, start, s) && out <= end && argc <= argv.Length - 1
    ensures forall j | end < j < line.Length :: line[j] == old(line[j])
    ensures forall j | argc <= j < argv.Length :: argv[j] == old(argv[j])
  {
    ghost var text := line[..end];
    ghost var max := argv.Length - 1;
    s := Fresh();
    mode, out, argc, start := InSpace, 0, 0, 0;
    var i := 0;
    while argc < argv.Length - 1
      invariant 0 <= out <= i <= end && argc <= max
      invariant Keeps(line[..], argv[..], mode, out, argc, start, s)
      invariant Run(s, text[i..], max) == Run(Fresh(), text, max)
      invariant forall j | i <= j < line.Length :: line[j] == old(line[j])
      invariant forall j | argc <= j < argv.Length :: argv[j] == old(argv[j])
      decreases end - i
    {
      var c := line[i];
      if c == NUL {
        break;
      }
      RunStep(s, text, i, max);
      mode, out, argc, start := OneChar(line, argv, c, mode, out, argc, start, s);
      s := Feed(s, c);
      i := i + 1;
    }
  }

  /** The body of the loop, once the character is read. */
  method OneChar(line: array<Byte>, argv: array<int>, c: Byte, mode: Mode, out: nat, argc: nat, start: nat, ghost s: Scan)
    returns (mode1: Mode, out1: nat, argc1: nat, start1: nat)
    requires c != NUL && out < line.Length && argc < argv.Length
    requires Keeps(line[..], argv[..], mode, out, argc, start, s)
    modifies line, argv
    ensures Keeps(line[..], argv[..], mode1, out1, argc1, start1, Feed(s, c))
    ensures out <= out1 <= out + 1 && argc <= argc1 <= argc + 1
    ensures forall j | out < j < line.Length :: line[j] == old(line[j])
    ensures forall j | argc1 <= j < argv.Length :: argv[j] == old(argv[j])
  {
    FeedEmits(s, c);
    var emit, starts;
    mode1, emit, starts := Decide(mode, c, s);
    out1, argc1, start1 := out, argc, if starts then out else start;
    if emit.Some? {
      Put(line, out, emit.value, s, Feed(s, c));
      out1 := out + 1;
      if emit.value == NUL {
        argv[argc] := start1;
        argc1 := argc + 1;
        IndexedSnoc(argv[..], s.args, s.current);
      }
    }
  }

  /** All arguments lie in memory, the last one terminated. */
  predicate Complete(buf: Text, argv: seq<int>, args: seq<Text>) {
    Indexed(argv, args) && AllClean(args) && |Flat(args)| <= |buf| && buf[..|Flat(args)|] == Flat(args)
  }

  /** After the loop: terminates the last argument and the argument list. */
  method Terminate(line: array<Byte>, argv: array<int>, mode: Mode, out: nat, argc0: nat, start: nat, ghost s: Scan)
    returns (argc: nat)
    requires argv.Length >= 1 && out < line.Length && argc0 <= argv.Length - 1
    requires Keeps(line[..], argv[..], mode, out, argc0, start, s)
    modifies line, argv
    ensures var args := Finish(s, argv.Length - 1);
            argc == |args| <= argv.Length - 1 && Complete(line[..], argv[..], args) && |Flat(args)| <= out + 1
    ensures argv[argc] == -1
    ensures forall j | out < j < line.Length :: line[j] == old(line[j])
    ensures forall j | argc < j < argv.Length :: argv[j] == old(argv[j])
  {
    argc := argc0;
    ghost var args := Finish(s, argv.Length - 1);
    line[out] := NUL;
    assert line[..out] == old(line[..out]);
    if mode != InSpace && argc < argv.Length - 1 {
      argv[argc] := start;
      argc := argc + 1;
      FlatSnoc(s.args, s.current);
      IndexedSnoc(argv[..], s.args, s.current);
      assert line[..out + 1] == Flat(args);
    } else {
      assert line[..|Flat(args)|] == line[..out][..|Flat(args)|];
    }
    argv[argc] := -1;
  }

  lemma AllRead(buf: Text, argv: seq<int>, args: seq<Text>)
    requires Complete(buf, argv, args)
    ensures forall k | 0 <= k < |args| :: StringAt(buf, argv[k], args[k]) && argv[k] + |args[k]| < |Flat(args)|
    ensures forall k | 0 <= k < |args| - 1 :: argv[k] + |args[k]| < argv[k + 1]
  {
    forall k | 0 <= k < |args|
      ensures StringAt(buf, argv[k], args[k]) && argv[k] + |args[k]| < |Flat(args)|
      ensures k + 1 < |args| ==> argv[k] + |args[k]| < argv[k + 1]
    {
      ArgvReads(buf, argv, args, k);
    }
  }

  // ---------------------------------------------------------------------------------------------
  // A short argument vector truncates
  // ---------------------------------------------------------------------------------------------

  function Take(args: seq<Text>, max: nat): seq<Text> {
    if |args| <= max then args else args[..max]
  }

  lemma {:induction false} RunGrows(s: Scan, text: Text, max: nat)
    ensures s.args <= Finish(Run(s, text, max), max)
    decreases |text|
  {
    if text != [] && |s.args| < max {
      RunGrows(Feed(s, text[0]), text[1..], max);
    }
  }

  lemma {:induction false} RunTruncates(s: Scan, text: Text, small: nat, large: nat)
    requires |s.args| <= small <= large
    ensures Finish(Run(s, text, small), small) == Take(Finish(Run(s, text, large), large), small)
    decreases |text|
  {
    if text != [] && |s.args| < small {
      RunTruncates(Feed(s, text[0]), text[1..], small, large);
    } else {
      RunGrows(s, text, large);
    }
  }

  /** With room for fewer arguments the splitter finds the same ones and drops the rest. */
  lemma SplitTruncates(text: Text, small: nat, large: nat)
    requires small <= large
    ensures Split(text, small) == Take(Split(text, large), small)
  {
    RunTruncates(Fresh(), text, small, large);
  }

  // ---------------------------------------------------------------------------------------------
  // Splitting undoes printing
  // ---------------------------------------------------------------------------------------------

  /** An argument, how it is written, and how many extra spaces come before it. */
  datatype Item = Item(text: Text, quoted: bool, gap: nat)

  /** Nothing can express a NUL, and an empty argument only in quotes. */
  predicate Printable(item: Item) {
    Clean(item.text) && (item.quoted || item.text != [])
  }

  /** Backslash and quote need a backslash before them, and so does a space outside quotes. */
  function EscapeChar(c: Byte, quoted: bool): Text {
    if c == ESCAPE || c == QUOTE || (c == SPACE && !quoted) then [ESCAPE, c] else [c]
  }

  function Escape(t: Text, quoted: bool): Text {
    if t == [] then [] else EscapeChar(t[0], quoted) + Escape(t[1..], quoted)
  }

  function Encode(item: Item): Text {
    if item.quoted then [QUOTE] + Escape(item.text, true) + [QUOTE] else Escape(item.text, false)
  }

  function Spaces(n: nat): Text {
    if n == 0 then [] else [SPACE] + Spaces(n - 1)
  }

  /** Items separated by at least one space, with `tail` spaces at the end. */
  function Print(items: seq<Item>, tail: nat): Text {
    if items == [] then Spaces(tail)
    else if |items| == 1 then Spaces(items[0].gap) + (Encode(items[0]) + Spaces(tail))
    else Spaces(items[0].gap) + (Encode(items[0]) + ([SPACE] + Print(items[1..], tail)))
  }

  function Texts(items: seq<Item>): (r: seq<Text>)
    ensures |r| == |items|
  {
    if items == [] then [] else [items[0].text] + Texts(items[1..])
  }

  lemma {:induction false} RunAppend(s: Scan, a: Text, b: Text, max: nat)
    ensures Run(s, a + b, max) == Run(Run(s, a, max), b, max)
    decreases |a|
  {
    if a == [] {
      assert a + b == b;
    } else if |s.args| < max {
      assert (a + b)[1..] == a[1..] + b;
      RunAppend(Feed(s, a[0]), a[1..], b, max);
    }
  }

  lemma RunOne(s: Scan, c: Byte, max: nat)
    requires |s.args| < max
    ensures Run(s, [c], max) == Feed(s, c)
  {
    assert [c][1..] == [];
  }

  lemma {:induction false} RunSpaces(s: Scan, n: nat, max: nat)
    requires s.mode == InSpace
    ensures Run(s, Spaces(n), max) == s
  {
    if n > 0 && |s.args| < max {
      assert Spaces(n)[1..] == Spaces(n - 1);
      RunSpaces(s, n - 1, max);
    }
  }

  /** An escaped character is read back as itself. */
  lemma RunEscapeChar(s: Scan, c: Byte, quoted: bool, max: nat)
    requires |s.args| < max && if quoted then s.mode == InQuoted else s.mode == InSpace || s.mode == InArg
    ensures Run(s, EscapeChar(c, quoted), max) == Scan(if quoted then InQuoted else InArg, s.current + [c], s.args)
  {
    if EscapeChar(c, quoted) == [c] {
      RunOne(s, c, max);
    } else {
      RunOne(s, ESCAPE, max);
      RunOne(Feed(s, ESCAPE), c, max);
      RunAppend(s, [ESCAPE], [c], max);
      assert [ESCAPE] + [c] == EscapeChar(c, quoted);
    }
  }

  lemma {:induction false} RunEscape(s: Scan, t: Text, quoted: bool, max: nat)
    requires |s.args| < max && if quoted then s.mode == InQuoted else s.mode == InArg || (s.mode == InSpace && t != [])
    ensures Run(s, Escape(t, quoted), max) == Scan(if quoted then InQuoted else InArg, s.current + t, s.args)
    decreases |t|
  {
    if t == [] {
      assert s.current + t == s.current;
    } else {
      var s1 := Scan(if quoted then InQuoted else InArg, s.current + [t[0]], s.args);
      RunEscapeChar(s, t[0], quoted, max);
      RunAppend(s, EscapeChar(t[0], quoted), Escape(t[1..], quoted), max);
      RunEscape(s1, t[1..], quoted, max);
      assert s.current + t == s.current + [t[0]] + t[1..];
    }
  }

  /** After a quoted item the argument is complete; after a plain one it still waits for a separator. */
  lemma RunItem(args: seq<Text>, item: Item, max: nat)
    requires |args| < max && Printable(item)
    ensures Run(Scan(InSpace, [], args), Encode(item), max) ==
            if item.quoted then Scan(InSpace, [], args + [item.text]) else Scan(InArg, item.text, args)
  {
    var s := Scan(InSpace, [], args);
    assert [] + item.text == item.text;
    if item.quoted {
      var q := s.(mode := InQuoted);
      RunOne(s, QUOTE, max);
      RunEscape(q, item.text, true, max);
      RunOne(Scan(InQuoted, item.text, args), QUOTE, max);
      RunAppend(s, [QUOTE], Escape(item.text, true), max);
      RunAppend(s, [QUOTE] + Escape(item.text, true), [QUOTE], max);
    } else {
      RunEscape(s, item.text, false, max);
    }
  }

  /** A separator leaves the tokenizer between arguments, whichever way the item was written. */
  lemma RunSeparated(args: seq<Text>, item: Item, rest: Text, max: nat)
    requires |args| < max && Printable(item)
    ensures Run(Scan(InSpace, [], args), Spaces(item.gap) + (Encode(item) + ([SPACE] + rest)), max) ==
            Run(Scan(InSpace, [], args + [item.text]), rest, max)
  {
    var s := Scan(InSpace, [], args);
    RunSpaces(s, item.gap, max);
    RunAppend(s, Spaces(item.gap), Encode(item) + ([SPACE] + rest), max);
    RunItem(args, item, max);
    RunAppend(s, Encode(item), [SPACE] + rest, max);
    var s1 := Run(s, Encode(item), max);
    RunAppend(s1, [SPACE], rest, max);
    if |s1.args| < max {
      RunOne(s1, SPACE, max);
    }
  }

  /** The last item, followed by spaces only. */
  lemma RunLast(args: seq<Text>, item: Item, tail: nat, max: nat)
    requires |args| < max && Printable(item)
    ensures Finish(Run(Scan(InSpace, [], args), Spaces(item.gap) + (Encode(item) + Spaces(tail)), max), max) == args + [item.text]
  {
    var s := Scan(InSpace, [], args);
    if tail > 0 {
      RunSeparated(args, item, Spaces(tail - 1), max);
      RunSpaces(Scan(InSpace, [], args + [item.text]), tail - 1, max);
    } else {
      RunSpaces(s, item.gap, max);
      assert Encode(item) + Spaces(0) == Encode(item);
      RunAppend(s, Spaces(item.gap), Encode(item), max);
      RunItem(args, item, max);
    }
  }

  lemma RunFirst(args: seq<Text>, items: seq<Item>, tail: nat, max: nat)
    requires |args| < max && |items| > 1 && Printable(items[0])
    ensures Run(Scan(InSpace, [], args), Print(items, tail), max) ==
            Run(Scan(InSpace, [], args + [items[0].text]), Print(items[1..], tail), max)
  {
    RunSeparated(args, items[0], Print(items[1..], tail), max);
  }

  predicate AllPrintable(items: seq<Item>) {
    forall k | 0 <= k < |items| :: Printable(items[k])
  }

  /** All texts, after the arguments already there. */
  function After(args: seq<Text>, items: seq<Item>): seq<Text>
    decreases |items|
  {
    if items == [] then args else After(args + [items[0].text], items[1..])
  }

  lemma {:induction false} AfterIs(args: seq<Text>, items: seq<Item>)
    ensures After(args, items) == args + Texts(items)
    decreases |items|
  {
    if items == [] {
      assert args + [] == args;
    } else {
      AfterIs(args + [items[0].text], items[1..]);
      assert args + Texts(items) == args + [items[0].text] + Texts(items[1..]);
    }
  }

  lemma {:induction false} RunPrint(args: seq<Text>, items: seq<Item>, tail: nat, max: nat)
    requires |args| + |items| <= max && AllPrintable(items)
    ensures Finish(Run(Scan(InSpace, [], args), Print(items, tail), max), max) == After(args, items)
    decreases |items|
  {
    if items == [] {
      RunSpaces(Scan(InSpace, [], args), tail, max);
    } else if |items| == 1 {
      RunLast(args, items[0], tail, max);
    } else {
      RunFirst(args, items, tail, max);
      RunPrint(args + [items[0].text], items[1..], tail, max);
    }
  }

  /**
   Printing any arguments, each plain with backslashes or in quotes, with any spacing, and splitting the line
   gives the arguments back, or as many of them as there is room for.
   */
  lemma SplitUndoesPrint(items: seq<Item>, tail: nat, max: nat)
    requires AllPrintable(items)
    ensures Split(Print(items, tail), max) == Take(Texts(items), max)
  {
    var large := if max < |items| then |items| else max;
    RunPrint([], items, tail, large);
    AfterIs([], items);
    assert [] + Texts(items) == Texts(items);
    SplitTruncates(Print(items, tail), max, large);
  }

  // ---------------------------------------------------------------------------------------------
  // Where the code is narrower than its description
  // ---------------------------------------------------------------------------------------------

  lemma {:induction false} EscapePlain(t: Text)
    requires forall k | 0 <= k < |t| :: !Special(t[k])
    ensures Escape(t, false) == t
  {
    if t != [] {
      EscapePlain(t[1..]);
      assert t == [t[0]] + t[1..];
    }
  }

  /** "Whitespace" means the space character alone: tabs and newlines are ordinary characters. */
  lemma OnlySpaceSeparates(t: Text, max: nat)
    requires t != [] && max > 0 && forall k | 0 <= k < |t| :: !Special(t[k])
    ensures Split(t, max) == [t]
  {
    EscapePlain(t);
    RunEscape(Fresh(), t, false, max);
    assert [] + t == t && [] + [t] == [t];
  }

  /** Text right after a closing quote is a new argument. */
  lemma QuoteSeparates(a: Text, b: Text, max: nat)
    requires Clean(a) && Clean(b) && b != [] && max >= 2
    ensures Split(Encode(Item(a, true, 0)) + Encode(Item(b, false, 0)), max) == [a, b]
  {
    RunItem([], Item(a, true, 0), max);
    RunItem([a], Item(b, false, 0), max);
    RunAppend(Fresh(), Encode(Item(a, true, 0)), Encode(Item(b, false, 0)), max);
    assert [] + [a] == [a];
  }

  /** An opening quote inside a plain argument is an ordinary character. */
  lemma QuoteInsideIsLiteral(a: Text, b: Text, max: nat)
    requires a != [] && max > 0
    ensures Split(Escape(a, false) + ([QUOTE] + Escape(b, false)), max) == [a + [QUOTE] + b]
  {
    RunEscape(Fresh(), a, false, max);
    var s := Scan(InArg, a, []);
    assert [] + a == a;
    RunAppend(Fresh(), Escape(a, false), [QUOTE] + Escape(b, false), max);
    RunAppend(s, [QUOTE], Escape(b, false), max);
    RunOne(s, QUOTE, max);
    RunEscape(Scan(InArg, a + [QUOTE], []), b, false, max);
    assert [] + [a + [QUOTE] + b] == [a + [QUOTE] + b];
  }

  /** A backslash before any other character makes both disappear, outside quotes ... */
  lemma UnknownEscapeVanishes(a: Text, c: Byte, b: Text, max: nat)
    requires max > 0 && !Special(c)
    ensures Split(Escape(a, false) + ([ESCAPE, c] + Escape(b, false)), max) == [a + b]
  {
    var s := if a == [] then Fresh() else Scan(InArg, a, []);
    if a != [] {
      RunEscape(Fresh(), a, false, max);
      assert [] + a == a;
    }
    RunAppend(Fresh(), Escape(a, false), [ESCAPE, c] + Escape(b, false), max);
    RunEscaped(s, c, max);
    RunAppend(s, [ESCAPE, c], Escape(b, false), max);
    RunEscape(Scan(InArg, a, []), b, false, max);
    assert [] + [a + b] == [a + b];
  }

  /** ... and inside, where a space may be escaped as well although it need not be. */
  lemma QuotedEscapeVanishes(a: Text, c: Byte, b: Text, max: nat)
    requires max > 0 && c != ESCAPE && c != QUOTE
    ensures Split([QUOTE] + Escape(a, true) + [ESCAPE, c] + Escape(b, true) + [QUOTE], max) ==
            [a + (if c == SPACE then [c] else []) + b]
  {
    var x, y := PlainGlyphs(a), PlainGlyphs(b);
    GlyphsOfEscape(a);
    GlyphsOfEscape(b);
    OneGlyph(Escaped(c));
    GlyphsAppend(x, [Escaped(c)]);
    GlyphsAppend(x + [Escaped(c)], y);
    QuotedLine(x + [Escaped(c)] + y, max);
    Regroup([QUOTE], Escape(a, true) + [ESCAPE, c], Escape(b, true));
    Regroup([QUOTE], Escape(a, true), [ESCAPE, c]);
  }

  /** A line that is one quoted argument. */
  lemma QuotedLine(glyphs: seq<Glyph>, max: nat)
    requires max > 0 && Legal(true, glyphs)
    ensures Split([QUOTE] + Shape(glyphs) + [QUOTE], max) == [Meaning(glyphs)]
  {
    var w := Word(0, true, glyphs);
    GrammarDecides([w], Blank(0), max);
    assert [w][..0] == [] && RenderWords([w]) == [] + RenderWord(w);
    assert Render([w], Blank(0)) == RenderWord(w) == [QUOTE] + Shape(glyphs) + [QUOTE];
    assert Denotes([w], Blank(0)) == [] + [Meaning(glyphs)] + [];
  }

  // ---------------------------------------------------------------------------------------------
  // The grammar of a line
  // ---------------------------------------------------------------------------------------------

  /** A character that stands for itself, or one behind a backslash. */
  datatype Glyph = Plain(c: Byte) | Escaped(c: Byte)

  /** A complete argument and the spaces before it; the character that ends it, a quote or a space, belongs to it. */
  datatype Word = Word(gap: nat, quoted: bool, glyphs: seq<Glyph>)

  /** The end of a line: spaces, or an argument nothing ends, perhaps with a backslash as the last character. */
  datatype Tail = Blank(gap: nat) | Open(gap: nat, quoted: bool, glyphs: seq<Glyph>, dangling: bool)

  function Shape(glyphs: seq<Glyph>): Text {
    if glyphs == [] then []
    else (if glyphs[0].Plain? then [glyphs[0].c] else [ESCAPE, glyphs[0].c]) + Shape(glyphs[1..])
  }

  /** A backslash keeps a backslash, a quote or a space, and swallows everything else. */
  function Meaning(glyphs: seq<Glyph>): Text {
    if glyphs == [] then []
    else (if glyphs[0].Plain? || glyphs[0].c in {ESCAPE, QUOTE, SPACE} then [glyphs[0].c] else []) + Meaning(glyphs[1..])
  }

  /** Which characters can stand for themselves. */
  predicate CanStand(quoted: bool, g: Glyph) {
    g.Plain? ==> g.c != ESCAPE && if quoted then g.c != QUOTE else g.c != SPACE
  }

  predicate AllStand(quoted: bool, glyphs: seq<Glyph>) {
    forall k | 0 <= k < |glyphs| :: CanStand(quoted, glyphs[k])
  }

  /** In front of a plain argument a quote cannot stand for itself either. */
  predicate Legal(quoted: bool, glyphs: seq<Glyph>) {
    AllStand(quoted, glyphs) && (!quoted && glyphs != [] ==> glyphs[0] != Plain(QUOTE))
  }

  predicate LegalWord(w: Word) {
    Legal(w.quoted, w.glyphs) && (!w.quoted ==> w.glyphs != [])
  }

  predicate LegalLine(words: seq<Word>, tail: Tail) {
    && (forall k | 0 <= k < |words| :: LegalWord(words[k]))
    && (tail.Open? ==> Legal(tail.quoted, tail.glyphs) && (tail.quoted || tail.dangling || tail.glyphs != []))
  }

  function Body(quoted: bool, glyphs: seq<Glyph>): Text {
    if quoted then [QUOTE] + Shape(glyphs) else Shape(glyphs)
  }

  function RenderWord(w: Word): Text {
    Spaces(w.gap) + Body(w.quoted, w.glyphs) + [if w.quoted then QUOTE else SPACE]
  }

  function RenderTail(tail: Tail): Text {
    match tail
    case Blank(gap) => Spaces(gap)
    case Open(gap, quoted, glyphs, dangling) => Spaces(gap) + Body(quoted, glyphs) + if dangling then [ESCAPE] else []
  }

  function RenderWords(words: seq<Word>): Text {
    if words == [] then [] else RenderWords(words[..|words| - 1]) + RenderWord(words[|words| - 1])
  }

  function Render(words: seq<Word>, tail: Tail): Text {
    RenderWords(words) + RenderTail(tail)
  }

  function Meanings(words: seq<Word>): (r: seq<Text>)
    ensures |r| == |words|
  {
    if words == [] then [] else Meanings(words[..|words| - 1]) + [Meaning(words[|words| - 1].glyphs)]
  }

  /** The arguments a line stands for. */
  function Denotes(words: seq<Word>, tail: Tail): seq<Text> {
    Meanings(words) + if tail.Open? then [Meaning(tail.glyphs)] else []
  }

  lemma {:induction false} GlyphsAppend(a: seq<Glyph>, b: seq<Glyph>)
    ensures Shape(a + b) == Shape(a) + Shape(b) && Meaning(a + b) == Meaning(a) + Meaning(b)
  {
    if a == [] {
      assert a + b == b;
    } else {
      assert (a + b)[0] == a[0] && (a + b)[1..] == a[1..] + b;
      GlyphsCons(a);
      GlyphsCons(a + b);
      GlyphsAppend(a[1..], b);
      Regroup(Shape([a[0]]), Shape(a[1..]), Shape(b));
      Regroup(Meaning([a[0]]), Meaning(a[1..]), Meaning(b));
    }
  }

  /** The text as it is escaped in quotes. */
  function PlainGlyphs(t: Text): (g: seq<Glyph>)
    ensures |g| == |t|
  {
    seq(|t|, i requires 0 <= i < |t| => if t[i] == ESCAPE || t[i] == QUOTE then Escaped(t[i]) else Plain(t[i]))
  }

  lemma {:induction false} GlyphsOfEscape(t: Text)
    ensures Shape(PlainGlyphs(t)) == Escape(t, true) && Meaning(PlainGlyphs(t)) == t && Legal(true, PlainGlyphs(t))
  {
    if t != [] {
      assert PlainGlyphs(t)[1..] == PlainGlyphs(t[1..]);
      GlyphsOfEscape(t[1..]);
    }
  }

  /** A character behind a backslash. */
  lemma RunEscaped(s: Scan, c: Byte, max: nat)
    requires |s.args| < max && (s.mode == InSpace || s.mode == InArg || s.mode == InQuoted)
    ensures Run(s, [ESCAPE, c], max) ==
            Scan(if s.mode == InQuoted then InQuoted else InArg,
                 s.current + (if c in {ESCAPE, QUOTE, SPACE} then [c] else []), s.args)
  {
    RunOne(s, ESCAPE, max);
    RunOne(Feed(s, ESCAPE), c, max);
    RunAppend(s, [ESCAPE], [c], max);
    assert [ESCAPE] + [c] == [ESCAPE, c];
  }

  lemma RunGlyph(s: Scan, quoted: bool, g: Glyph, max: nat)
    requires |s.args| < max && CanStand(quoted, g)
    requires if quoted then s.mode == InQuoted else s.mode == InArg || (s.mode == InSpace && g != Plain(QUOTE))
    ensures Run(s, Shape([g]), max) == Scan(if quoted then InQuoted else InArg, s.current + Meaning([g]), s.args)
  {
    OneGlyph(g);
    if g.Plain? {
      RunOne(s, g.c, max);
    } else {
      RunEscaped(s, g.c, max);
    }
  }

  lemma OneGlyph(g: Glyph)
    ensures Shape([g]) == if g.Plain? then [g.c] else [ESCAPE, g.c]
    ensures Meaning([g]) == if g.Plain? || g.c in {ESCAPE, QUOTE, SPACE} then [g.c] else []
  {
    assert [g][1..] == [];
  }

  /** The glyphs of an argument, from inside it or from just before a plain one. */
  lemma {:induction false} RunGlyphs(s: Scan, quoted: bool, glyphs: seq<Glyph>, max: nat)
    requires |s.args| < max && AllStand(quoted, glyphs)
    requires if quoted then s.mode == InQuoted else s.mode == InArg || (s.mode == InSpace && Legal(false, glyphs))
    ensures Run(s, Shape(glyphs), max) ==
            if glyphs == [] then s else Scan(if quoted then InQuoted else InArg, s.current + Meaning(glyphs), s.args)
    decreases |glyphs|
  {
    if glyphs != [] {
      var g, rest := glyphs[0], glyphs[1..];
      var s1 := Scan(if quoted then InQuoted else InArg, s.current + Meaning([g]), s.args);
      GlyphsCons(glyphs);
      RunAppend(s, Shape([g]), Shape(rest), max);
      RunGlyph(s, quoted, g, max);
      RunGlyphs(s1, quoted, rest, max);
      Regroup(s.current, Meaning([g]), Meaning(rest));
      assert rest == [] ==> s1.current + Meaning(rest) == s1.current;
    }
  }

  lemma GlyphsCons(glyphs: seq<Glyph>)
    requires glyphs != []
    ensures Shape(glyphs) == Shape([glyphs[0]]) + Shape(glyphs[1..])
    ensures Meaning(glyphs) == Meaning([glyphs[0]]) + Meaning(glyphs[1..])
  {
    OneGlyph(glyphs[0]);
  }

  /** The spaces before an argument and its glyphs. */
  lemma RunBody(args: seq<Text>, gap: nat, quoted: bool, glyphs: seq<Glyph>, max: nat)
    requires |args| < max && Legal(quoted, glyphs)
    ensures Run(Scan(InSpace, [], args), Spaces(gap) + Body(quoted, glyphs), max) ==
            if quoted then Scan(InQuoted, Meaning(glyphs), args)
            else if glyphs == [] then Scan(InSpace, [], args) else Scan(InArg, Meaning(glyphs), args)
  {
    var s := Scan(InSpace, [], args);
    RunSpaces(s, gap, max);
    RunAppend(s, Spaces(gap), Body(quoted, glyphs), max);
    assert [] + Meaning(glyphs) == Meaning(glyphs);
    if quoted {
      RunOne(s, QUOTE, max);
      RunAppend(s, [QUOTE], Shape(glyphs), max);
      RunGlyphs(Scan(InQuoted, [], args), true, glyphs, max);
    } else {
      RunGlyphs(s, false, glyphs, max);
    }
  }

  lemma RunWord(args: seq<Text>, w: Word, max: nat)
    requires |args| < max && LegalWord(w)
    ensures Run(Scan(InSpace, [], args), RenderWord(w), max) == Scan(InSpace, [], args + [Meaning(w.glyphs)])
  {
    var s, front := Scan(InSpace, [], args), Spaces(w.gap) + Body(w.quoted, w.glyphs);
    RunBody(args, w.gap, w.quoted, w.glyphs, max);
    var last := if w.quoted then QUOTE else SPACE;
    RunAppend(s, front, [last], max);
    RunOne(Run(s, front, max), last, max);
  }

  lemma {:induction false} RunWords(words: seq<Word>, max: nat)
    requires |words| <= max && forall k | 0 <= k < |words| :: LegalWord(words[k])
    ensures Run(Fresh(), RenderWords(words), max) == Scan(InSpace, [], Meanings(words))
    decreases |words|
  {
    if words != [] {
      var front, w := words[..|words| - 1], words[|words| - 1];
      RunWords(front, max);
      RunAppend(Fresh(), RenderWords(front), RenderWord(w), max);
      RunWord(Meanings(front), w, max);
    }
  }

  lemma RunTail(args: seq<Text>, tail: Tail, max: nat)
    requires |args| < max && LegalLine([], tail)
    ensures Finish(Run(Scan(InSpace, [], args), RenderTail(tail), max), max) ==
            args + if tail.Open? then [Meaning(tail.glyphs)] else []
  {
    var s := Scan(InSpace, [], args);
    match tail
    case Blank(gap) => RunSpaces(s, gap, max);
    case Open(gap, quoted, glyphs, dangling) =>
      var front := Spaces(gap) + Body(quoted, glyphs);
      RunBody(args, gap, quoted, glyphs, max);
      if dangling {
        RunAppend(s, front, [ESCAPE], max);
        RunOne(Run(s, front, max), ESCAPE, max);
      } else {
        assert front + [] == front;
      }
  }

  /** Every line splits into what it denotes, or as many arguments of it as there is room for ... */
  lemma GrammarDecides(words: seq<Word>, tail: Tail, max: nat)
    requires LegalLine(words, tail)
    ensures Split(Render(words, tail), max) == Take(Denotes(words, tail), max)
  {
    var large := max + |words| + 1;
    RunWords(words, large);
    RunAppend(Fresh(), RenderWords(words), RenderTail(tail), large);
    RunTail(Meanings(words), tail, large);
    SplitTruncates(Render(words, tail), max, large);
    assert Split(Render(words, tail), large) == Denotes(words, tail);
  }

  /** ... and every text is such a line. */
  lemma {:induction false} EveryLineIsLegal(text: Text) returns (words: seq<Word>, tail: Tail)
    ensures LegalLine(words, tail) && Render(words, tail) == text
    decreases |text|
  {
    if text == [] {
      words, tail := [], Blank(0);
    } else {
      var n := |text| - 1;
      words, tail := EveryLineIsLegal(text[..n]);
      words, tail := OneMore(words, tail, text[n]);
      assert text == text[..n] + [text[n]];
    }
  }

  lemma OneMore(words: seq<Word>, tail: Tail, c: Byte) returns (words1: seq<Word>, tail1: Tail)
    requires LegalLine(words, tail)
    ensures LegalLine(words1, tail1) && Render(words1, tail1) == Render(words, tail) + [c]
  {
    if tail.Open? && !tail.dangling && c == if tail.quoted then QUOTE else SPACE {
      var w := Word(tail.gap, tail.quoted, tail.glyphs);
      words1, tail1 := words + [w], Blank(0);
      assert (words + [w])[..|words|] == words;
      assert RenderTail(tail) == Spaces(tail.gap) + Body(tail.quoted, tail.glyphs) + [] == Spaces(tail.gap) + Body(tail.quoted, tail.glyphs);
      Regroup(RenderWords(words), RenderTail(tail), [c]);
      assert RenderWords(words1) + [] == RenderWords(words1);
    } else {
      words1 := words;
      tail1 := if tail.Blank? then FromBlank(tail, c) else FromOpen(tail, c);
      if tail.Blank? {
        BlankGrows(tail, c);
      } else {
        OpenGrows(tail, c);
      }
      Regroup(RenderWords(words), RenderTail(tail), [c]);
    }
  }

  lemma Regroup(a: Text, b: Text, c: Text)
    ensures a + (b + c) == a + b + c
  {
  }

  function FromBlank(tail: Tail, c: Byte): Tail
    requires tail.Blank?
  {
    if c == SPACE then Blank(tail.gap + 1) else if c == QUOTE then Open(tail.gap, true, [], false)
    else if c == ESCAPE then Open(tail.gap, false, [], true) else Open(tail.gap, false, [Plain(c)], false)
  }

  lemma BlankGrows(tail: Tail, c: Byte)
    requires tail.Blank?
    ensures LegalLine([], FromBlank(tail, c)) && RenderTail(FromBlank(tail, c)) == RenderTail(tail) + [c]
  {
    SpacesSnoc(tail.gap);
    OneGlyph(Plain(c));
    assert Shape([]) == [];
  }

  function FromOpen(tail: Tail, c: Byte): Tail
    requires tail.Open?
  {
    if tail.dangling then tail.(glyphs := tail.glyphs + [Escaped(c)], dangling := false)
    else if c == ESCAPE then tail.(dangling := true)
    else tail.(glyphs := tail.glyphs + [Plain(c)])
  }

  lemma OpenGrows(tail: Tail, c: Byte)
    requires tail.Open? && LegalLine([], tail) && (tail.dangling || c != if tail.quoted then QUOTE else SPACE)
    ensures LegalLine([], FromOpen(tail, c)) && RenderTail(FromOpen(tail, c)) == RenderTail(tail) + [c]
  {
    LegalGrows(tail, c);
    var front := Spaces(tail.gap) + Body(tail.quoted, tail.glyphs);
    Regroup(front, [], [c]);
    Regroup(front, [ESCAPE], [c]);
    assert front + [] == front;
    if tail.dangling || c != ESCAPE {
      var g := if tail.dangling then Escaped(c) else Plain(c);
      OneGlyph(g);
      BodyGrows(tail.gap, tail.quoted, tail.glyphs, g);
      assert Shape([g]) + [] == Shape([g]) && [ESCAPE] + [c] == [ESCAPE, c];
      Regroup(front, Shape([g]), []);
    }
  }

  lemma LegalGrows(tail: Tail, c: Byte)
    requires tail.Open? && LegalLine([], tail) && (tail.dangling || c != if tail.quoted then QUOTE else SPACE)
    ensures LegalLine([], FromOpen(tail, c))
  {
    var g := if tail.dangling then Escaped(c) else Plain(c);
    assert forall k | 0 <= k < |tail.glyphs| + 1 :: (tail.glyphs + [g])[k] == if k < |tail.glyphs| then tail.glyphs[k] else g;
  }

  lemma BodyGrows(gap: nat, quoted: bool, glyphs: seq<Glyph>, g: Glyph)
    ensures Spaces(gap) + Body(quoted, glyphs + [g]) == Spaces(gap) + Body(quoted, glyphs) + Shape([g])
  {
    GlyphsAppend(glyphs, [g]);
    Regroup([QUOTE], Shape(glyphs), Shape([g]));
    Regroup(Spaces(gap), Body(quoted, glyphs), Shape([g]));
  }

  lemma {:induction false} SpacesSnoc(n: nat)
    ensures Spaces(n + 1) == Spaces(n) + [SPACE]
  {
    if n > 0 {
      SpacesSnoc(n - 1);
    }
  }
}

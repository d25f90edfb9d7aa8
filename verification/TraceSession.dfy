/**
 A whole trace session: any number of regions handed out, written and put back in any order, swaps, flushes,
 and a host that reads every block handed to it and writes data for the target into it. A book says what every
 event does and how it is answered; the session in memory is proved to follow it, and the book to balance.
 */
module TraceSession {
  import opened Common
  import opened TraceRing
  import opened TraceMembufs

  type Text = seq<Byte>

  type Core = c: nat | c < 2

  /** What tasks on the target and the host do. `starts` are the answers of the hardware to swap attempts. */
  datatype Event =
    | Get(size: nat, core: Core, starts: seq<bool>)
    | Write(k: nat, bytes: Text)       // into the k-th region of the block in use
    | Put(k: nat)
    | PutLate(k: nat)                  // of the block just handed over, before the host has written there
    | Flush(minSz: nat, starts: seq<bool>)
    | Poll(limit: nat, starts: seq<bool>)
    | HostSends(bytes: Text)

  /** What the caller gets back; `found` is the content of a region as it is handed out. */
  datatype Reply = Nothing | Granted(ptr: nat, found: Text) | Flushed(ok: bool) | Received(bytes: Text)

  /** The block the host has been given along with the event, as it reads it, and the reply. */
  datatype Answer = Answer(handed: Option<Text>, reply: Reply)

  // ---------------------------------------------------------------------------------------------
  // The book
  // ---------------------------------------------------------------------------------------------

  /** What a request asked for: core and payload size. */
  datatype Request = Request(core: nat, size: nat)

  datatype Log = Log(
    granted: seq<Request>,             // the regions handed out, in order
    retired: seq<seq<Rec>>,            // the records of every block handed to the host, as they were then
    seen: seq<Option<seq<Item>>>,      // what the host makes of that block
    inbox: seq<Text>,                  // what the host had left for the target at each swap
    taken: seq<Text>,                  // how much of it the ring took
    delivered: Text,                   // what has been handed out to users on the target
    mail: Text)                        // the message the host has left, if it has

  /** What a user holds: address and size of a payload. */
  datatype Region = Region(ptr: nat, size: nat)

  /** What users and hardware remember between calls. */
  datatype Hands = Hands(
    users: seq<Region>,                // regions of the block in use
    late: seq<Region>,                 // regions of the block handed over
    intact: bool,                      // the host has not written into its block yet
    pending: bool)                     // what the hardware answers to host_data_pending

  /** Header form, size of a block and of the ring, and all that is written down: records and queued bytes included. */
  datatype Book = Book(wide: bool, sz: nat, cap: nat, h: Hands, log: Log, recs: seq<Rec>, lateRecs: seq<Rec>,
                       queued: Text, rd: nat)

  /** Nothing has happened yet; `rd` is where the ring starts. */
  function Opened(wide: bool, sz: nat, cap: nat, rd: nat): Book {
    Book(wide, sz, cap, Hands([], [], false, false), Log([], [], [], [], [], [], []), [], [], [], rd)
  }

  /** What the host has left for the target. */
  function Message(b: Book): Text {
    if b.h.pending then b.log.mail else []
  }

  /** How much of it the ring takes. */
  function Part(b: Book): (part: Text)
    ensures part <= Message(b)
  {
    Take(Message(b), if b.cap == 0 then 0 else b.cap - 1 - |b.queued|)
  }

  /** The block in use is handed to the host, which reads `block`, and the ring takes its part of the host's message. */
  function Swapped(b: Book, block: Text): Book {
    b.(h := Hands([], b.h.users, true, false), recs := [], lateRecs := b.recs, queued := b.queued + Part(b),
    log := HandedOver(b.log, b.recs, Parse(b.wide, block), Message(b), Part(b)))
  }

  function HandedOver(log: Log, recs: seq<Rec>, sees: Option<seq<Item>>, mail: Text, part: Text): Log {
    log.(retired := log.retired + [recs], seen := log.seen + [sees], inbox := log.inbox + [mail], taken := log.taken + [part])
  }

  /** A region is handed out at `ptr`. */
  function Granting(b: Book, r: Rec, ptr: nat): Book {
    b.(h := b.h.(users := b.h.users + [Region(ptr, |r.payload|)]), recs := b.recs + [r],
    log := b.log.(granted := b.log.granted + [Request(r.core, |r.payload|)]))
  }

  /** The host writes a message over its block. */
  function Sending(b: Book, bytes: Text): Book {
    b.(h := b.h.(intact := false, pending := true), log := b.log.(mail := bytes))
  }

  predicate FitsMail(sz: nat, bytes: Text) {
    2 + |bytes| <= sz && |bytes| < 0x1_0000
  }

  /** What an event does. Writes and puts of regions nobody holds do not occur. */
  function Next(b: Book, e: Event, a: Answer): Book {
    var b0 := if a.handed.Some? then Swapped(b, a.handed.value) else b;
    match e
    case Get(size, core, _) => if a.reply.Granted? then Granting(b0, Rec(core, false, a.reply.found), a.reply.ptr) else b0
    case Write(k, bytes) =>
      if k < |b.recs| && |bytes| == |b.recs[k].payload| then b.(recs := b.recs[k := b.recs[k].(payload := bytes)]) else b
    case Put(k) => if k < |b.recs| then b.(recs := b.recs[k := b.recs[k].(done := true)]) else b
    case PutLate(k) =>
      if b.h.intact && k < |b.lateRecs| then b.(lateRecs := b.lateRecs[k := b.lateRecs[k].(done := true)]) else b
    case Flush(_, _) => b0
    case Poll(_, _) => if a.reply.Received? then Reading(b, a.reply.bytes) else b0
    case HostSends(bytes) => if FitsMail(b.sz, bytes) then Sending(b, bytes) else b
  }

  /** The target takes `out` from the ring. */
  function Reading(b: Book, out: Text): Book {
    b.(log := b.log.(delivered := b.log.delivered + out), queued := if out <= b.queued then b.queued[|out|..] else [],
    rd := Advance(b.rd, |out|, b.cap))
  }

  /** The filling level of the block in use. */
  function Marker(b: Book): nat
    requires AllFit(b.wide, b.recs)
  {
    |Serialize(b.wide, b.recs)|
  }

  predicate Crowded(b: Book, size: nat)
    requires AllFit(b.wide, b.recs)
  {
    Marker(b) + size + HeaderSize(b.wide) > b.sz
  }

  /** The blocks change places: for want of space, to flush, or to fetch what the host has left. */
  predicate Swaps(b: Book, e: Event)
    requires AllFit(b.wide, b.recs)
  {
    match e
    case Get(size, _, starts) => size <= PayloadLimit(b.wide, b.sz) && Crowded(b, size) && true in starts
    case Flush(minSz, starts) => Marker(b) > minSz && true in starts
    case Poll(_, starts) => b.queued == [] && b.h.pending && true in starts
    case _ => false
  }

  predicate RightReply(b: Book, e: Event, r: Reply)
    requires AllFit(b.wide, b.recs)
  {
    match e
    case Get(size, _, starts) =>
      if size <= PayloadLimit(b.wide, b.sz) && (!Crowded(b, size) || true in starts)
      then r.Granted? && |r.found| == size && r.ptr == HeaderSize(b.wide) + if Crowded(b, size) then 0 else Marker(b)
      else r == Nothing
    case Flush(minSz, starts) => r == Flushed(Marker(b) <= minSz || true in starts)
    case Poll(limit, _) =>
      // as much as asked for, as far as there is that much in one piece
      r == if b.queued == [] then Nothing else Received(Take(b.queued, Min(limit, b.cap - b.rd)))
    case _ => r == Nothing
  }

  /** How an event has to be answered: the host is given a block exactly at a swap, byte for byte its records. */
  predicate Right(b: Book, e: Event, a: Answer) {
    && AllFit(b.wide, b.recs)
    && a.handed == (if Swaps(b, e) then Some(Serialize(b.wide, b.recs)) else None)
    && RightReply(b, e, a.reply)
  }

  /** A record that fills the block to the last byte stays in it, and one byte more makes the blocks change places. */
  lemma FitsToTheLastByte(b: Book, e: Event, a: Answer)
    requires Right(b, e, a) && e.Get? && true in e.starts && e.size <= PayloadLimit(b.wide, b.sz)
    ensures a.reply.Granted?
    ensures Marker(b) + (if b.wide then 4 else 2) + e.size == b.sz ==> a.handed == None && a.reply.ptr + e.size == b.sz
    ensures Marker(b) + (if b.wide then 4 else 2) + e.size == b.sz + 1 ==> a.handed.Some? && a.reply.ptr == if b.wide then 4 else 2
  {
  }

  /** A flush leaves a block alone that holds just the threshold, and hands over one that holds a byte more. */
  lemma FlushesAboveThreshold(b: Book, e: Event, a: Answer)
    requires Right(b, e, a) && e.Flush? && true in e.starts
    ensures a.reply == Flushed(true) && (Marker(b) == e.minSz ==> a.handed == None) && (Marker(b) == e.minSz + 1 ==> a.handed.Some?)
  {
  }

  /** What a user writes into a region and then puts back is what the host finds there, finished. */
  lemma WrittenIsHanded(b: Ledger, k: nat, bytes: Text, e: Event, a: Answer)
    requires k < |b.recs| && |bytes| == |b.recs[k].payload|
    requires var idle := Answer(None, Nothing);
             var b2 := Next(Next(b, Event.Write(k, bytes), idle), Event.Put(k), idle);
             Right(b2, e, a) && a.handed.Some?
    ensures var seen := Parse(b.wide, a.handed.value); var size := SizeField(b.wide, b.recs[k]);
                                                       && seen.Some? && |seen.value| == |b.recs| && seen.value[k] == Item(Head(size, size), bytes)
                                                       && forall i | 0 <= i < |b.recs| && i != k :: seen.value[i] == ItemOf(b.wide, b.recs[i])
  {
    var recs := b.recs[k := b.recs[k].(payload := bytes, done := true)];
    assert Next(Next(b, Event.Write(k, bytes), Answer(None, Nothing)), Event.Put(k), Answer(None, Nothing)).recs == recs;
    ParseSerialize(b.wide, recs);
  }

  /** A late put finishes its record in the block handed over, and a message of the host spoils that block. */
  lemma LatePutFinishes(b: Book, k: nat, bytes: Text)
    requires b.h.intact && k < |b.lateRecs|
    ensures Next(b, Event.PutLate(k), Answer(None, Nothing)) == b.(lateRecs := b.lateRecs[k := b.lateRecs[k].(done := true)])
    ensures 2 + |bytes| <= b.sz && |bytes| <= 0xFFFF ==>
              var b1 := Next(b, Event.HostSends(bytes), Answer(None, Nothing)); !b1.h.intact && Message(b1) == bytes
  {
  }

  /** A swap loses nothing the ring has room for, and one byte of the ring stays free. */
  lemma PartIsAllThatFits(b: Book)
    requires b.cap > 0 && |b.queued| < b.cap
    ensures Part(b) <= Message(b) && |b.queued| + |Part(b)| <= b.cap - 1
    ensures Part(b) == Message(b) || |b.queued| + |Part(b)| == b.cap - 1
  {
  }

  function After(b: Book, events: seq<Event>, answers: seq<Answer>): Book
    requires |events| == |answers|
  {
    if events == [] then b
    else
      var n := |events| - 1;
      Next(After(b, events[..n], answers[..n]), events[n], answers[n])
  }

  /** Every event is answered as it has to be. */
  predicate AllRight(b: Book, events: seq<Event>, answers: seq<Answer>)
    requires |events| == |answers|
  {
    events != [] ==>
      var n := |events| - 1;
      AllRight(b, events[..n], answers[..n]) && Right(After(b, events[..n], answers[..n]), events[n], answers[n])
  }

  lemma AfterSnoc(b: Book, events: seq<Event>, answers: seq<Answer>, e: Event, a: Answer)
    requires |events| == |answers|
    ensures After(b, events + [e], answers + [a]) == Next(After(b, events, answers), e, a)
    ensures AllRight(b, events + [e], answers + [a]) <==> AllRight(b, events, answers) && Right(After(b, events, answers), e, a)
  {
    assert (events + [e])[..|events|] == events && (answers + [a])[..|answers|] == answers;
  }

  // ---------------------------------------------------------------------------------------------
  // The book balances
  // ---------------------------------------------------------------------------------------------

  function Requests(recs: seq<Rec>): seq<Request> {
    seq(|recs|, i requires 0 <= i < |recs| => Request(recs[i].core, |recs[i].payload|))
  }

  function Concat<T>(parts: seq<seq<T>>): seq<T> {
    if parts == [] then [] else Concat(parts[..|parts| - 1]) + parts[|parts| - 1]
  }

  lemma ConcatSnoc<T>(parts: seq<seq<T>>, p: seq<T>)
    ensures Concat(parts + [p]) == Concat(parts) + p
  {
    assert (parts + [p])[..|parts|] == parts;
  }

  /** The host recovers every block exactly. */
  predicate HostSees(wide: bool, log: Log) {
    && |log.seen| == |log.retired|
    && forall k | 0 <= k < |log.seen| :: log.seen[k] == Some(Items(wide, log.retired[k]))
  }

  /** Every region handed out is one record, in order: in a block handed over or in the one in use. */
  predicate NothingLost(log: Log, current: seq<Rec>) {
    Requests(Concat(log.retired) + current) == log.granted
  }

  /** What the target got is what the host sent, in order, each message cut where the ring was full. */
  predicate MailInOrder(log: Log, queued: Text) {
    && |log.taken| == |log.inbox|
    && (forall k | 0 <= k < |log.taken| :: log.taken[k] <= log.inbox[k])
    && Concat(log.taken) == log.delivered + queued
  }

  /** The users hold exactly the payloads of these records. */
  predicate Hold(wide: bool, recs: seq<Rec>, users: seq<Region>) {
    && AllFit(wide, recs) && |users| == |recs|
    && forall k | 0 <= k < |users| :: users[k] == Region(Offset(wide, recs, k) + HeaderSize(wide), |recs[k].payload|)
  }

  predicate Kept(b: Book) {
    && Hold(b.wide, b.recs, b.h.users) && (b.h.intact ==> Hold(b.wide, b.lateRecs, b.h.late))
    && HostSees(b.wide, b.log) && NothingLost(b.log, b.recs) && MailInOrder(b.log, b.queued)
    && BlockSizeOk(b.wide, b.sz)
  }

  /** A book whose entries agree with each other. */
  type Ledger = b: Book | Kept(b)
    ghost witness Opened(false, 257, 0, 0)

  lemma UpdateKeeps(b: Ledger, k: nat, r: Rec)
    requires k < |b.recs| && FitsFormat(b.wide, r) && r.core == b.recs[k].core && |r.payload| == |b.recs[k].payload|
    ensures Kept(b.(recs := b.recs[k := r]))
  {
    HoldAfterUpdate(b.wide, b.recs, b.h.users, k, r);
    assert Requests(Concat(b.log.retired) + b.recs[k := r]) == Requests(Concat(b.log.retired) + b.recs);
  }

  lemma HoldAfterUpdate(wide: bool, recs: seq<Rec>, users: seq<Region>, k: nat, r: Rec)
    requires Hold(wide, recs, users) && k < |recs| && FitsFormat(wide, r) && |r.payload| == |recs[k].payload|
    ensures Hold(wide, recs[k := r], users)
  {
    forall i | 0 <= i < |recs|
      ensures users[i] == Region(Offset(wide, recs[k := r], i) + HeaderSize(wide), |recs[k := r][i].payload|)
    {
      OffsetStays(wide, recs, k, r, i);
    }
  }

  lemma GrantKeeps(b: Ledger, r: Rec, ptr: nat)
    requires FitsFormat(b.wide, r) && ptr == Marker(b) + HeaderSize(b.wide)
    ensures Kept(Granting(b, r, ptr))
  {
    HoldAfterGrant(b.wide, b.recs, b.h.users, r, ptr);
    assert Concat(b.log.retired) + (b.recs + [r]) == (Concat(b.log.retired) + b.recs) + [r];
  }

  lemma HoldAfterGrant(wide: bool, recs: seq<Rec>, users: seq<Region>, r: Rec, ptr: nat)
    requires Hold(wide, recs, users) && FitsFormat(wide, r) && ptr == |Serialize(wide, recs)| + HeaderSize(wide)
    ensures Hold(wide, recs + [r], users + [Region(ptr, |r.payload|)])
  {
    assert (recs + [r])[..|recs|] == recs;
    forall i | 0 <= i < |recs|
      ensures (users + [Region(ptr, |r.payload|)])[i] == Region(Offset(wide, recs + [r], i) + HeaderSize(wide), |recs[i].payload|)
    {
      OffsetAppend(wide, recs, r, i);
    }
  }

  lemma SwapKeeps(b: Ledger)
    ensures Kept(Swapped(b, Serialize(b.wide, b.recs)))
  {
    var sees := Parse(b.wide, Serialize(b.wide, b.recs));
    ParseSerialize(b.wide, b.recs);
    SeenAfterSwap(b.wide, b.log, b.recs, sees, Message(b), Part(b));
    LostAfterSwap(b.log, b.recs, sees, Message(b), Part(b));
    MailAfterSwap(b.log, b.recs, sees, Message(b), Part(b), b.queued);
  }

  lemma SeenAfterSwap(wide: bool, log: Log, recs: seq<Rec>, sees: Option<seq<Item>>, mail: Text, part: Text)
    requires HostSees(wide, log) && sees == Some(Items(wide, recs))
    ensures HostSees(wide, HandedOver(log, recs, sees, mail, part))
  {
  }

  lemma LostAfterSwap(log: Log, recs: seq<Rec>, sees: Option<seq<Item>>, mail: Text, part: Text)
    requires NothingLost(log, recs)
    ensures NothingLost(HandedOver(log, recs, sees, mail, part), [])
  {
    ConcatSnoc(log.retired, recs);
    assert Concat(log.retired) + recs + [] == Concat(log.retired) + recs;
  }

  lemma MailAfterSwap(log: Log, recs: seq<Rec>, sees: Option<seq<Item>>, mail: Text, part: Text, queued: Text)
    requires MailInOrder(log, queued) && part <= mail
    ensures MailInOrder(HandedOver(log, recs, sees, mail, part), queued + part)
  {
    ConcatSnoc(log.taken, part);
    assert log.delivered + queued + part == log.delivered + (queued + part);
  }

  lemma ReadKeeps(b: Ledger, out: Text)
    requires out <= b.queued
    ensures Kept(Reading(b, out))
  {
    assert b.queued == out + b.queued[|out|..];
    assert b.log.delivered + (out + b.queued[|out|..]) == b.log.delivered + out + b.queued[|out|..];
  }

  lemma FieldHasRoom(wide: bool, sz: nat, r: Rec)
    requires BlockSizeOk(wide, sz) && |r.payload| <= PayloadLimit(wide, sz) && r.core < 2
    ensures FitsFormat(wide, r)
  {
  }

  /** An event answered as it has to be leaves the book balanced. */
  lemma NextKeeps(b: Ledger, e: Event, a: Answer)
    requires Right(b, e, a)
    ensures Kept(Next(b, e, a))
  {
    if Swaps(b, e) {
      SwapKeeps(b);
    }
    var b0 := if Swaps(b, e) then Swapped(b, a.handed.value) else b;
    match e {
      case Get(size, core, _) =>
        if a.reply.Granted? {
          var r := Rec(core, false, a.reply.found);
          FieldHasRoom(b.wide, b.sz, r);
          GrantKeeps(b0, r, a.reply.ptr);
        }
      case Write(k, bytes) =>
        if k < |b.recs| && |bytes| == |b.recs[k].payload| { UpdateKeeps(b, k, b.recs[k].(payload := bytes)); }
      case Put(k) =>
        if k < |b.recs| { UpdateKeeps(b, k, b.recs[k].(done := true)); }
      case PutLate(k) =>
        if b.h.intact && k < |b.lateRecs| { HoldAfterUpdate(b.wide, b.lateRecs, b.h.late, k, b.lateRecs[k].(done := true)); }
      case Flush(_, _) =>
      case Poll(_, _) =>
        if a.reply.Received? { ReadKeeps(b, a.reply.bytes); }
      case HostSends(_) =>
    }
  }

  /** What one event grants, receives, hands over, finds waiting at a swap, and leaves waiting. */
  function GrantOf(e: Event, a: Answer): seq<Request> {
    if e.Get? && a.reply.Granted? then [Request(e.core, e.size)] else []
  }

  function BytesOf(a: Answer): Text {
    if a.reply.Received? then a.reply.bytes else []
  }

  function BlockOf(a: Answer): seq<Text> {
    if a.handed.Some? then [a.handed.value] else []
  }

  function WaitingOf(a: Answer, left: Text): seq<Text> {
    if a.handed.Some? then [left] else []
  }

  function LeftBy(sz: nat, e: Event, a: Answer, left: Text): Text {
    if a.handed.Some? then [] else if e.HostSends? && FitsMail(sz, e.bytes) then e.bytes else left
  }

  /** The log grows by exactly that. */
  lemma LogGrows(b: Book, e: Event, a: Answer)
    requires Right(b, e, a)
    ensures var b1 := Next(b, e, a);
            && b1.log.granted == b.log.granted + GrantOf(e, a) && b1.log.delivered == b.log.delivered + BytesOf(a)
            && b1.log.seen == b.log.seen + Parsed(b.wide, BlockOf(a))
            && b1.log.inbox == b.log.inbox + WaitingOf(a, Message(b)) && Message(b1) == LeftBy(b.sz, e, a, Message(b))
    ensures |Next(b, e, a).log.retired| == |b.log.retired| + |BlockOf(a)|
  {
  }

  /** The same over a run, from events and answers alone: what was asked for and granted ... */
  function Grants(events: seq<Event>, answers: seq<Answer>): seq<Request>
    requires |events| == |answers|
  {
    if events == [] then []
    else
      var n := |events| - 1;
      Grants(events[..n], answers[..n]) + GrantOf(events[n], answers[n])
  }

  /** ... the bytes received from the host ... */
  function Bytes(answers: seq<Answer>): Text {
    if answers == [] then []
    else
      var n := |answers| - 1;
      Bytes(answers[..n]) + BytesOf(answers[n])
  }

  /** ... the blocks the host was given ... */
  function Blocks(answers: seq<Answer>): seq<Text> {
    if answers == [] then []
    else
      var n := |answers| - 1;
      Blocks(answers[..n]) + BlockOf(answers[n])
  }

  /** ... the message the host has left since the last swap, the latest one if there are several ... */
  function Left(sz: nat, events: seq<Event>, answers: seq<Answer>): Text
    requires |events| == |answers|
  {
    if events == [] then []
    else
      var n := |events| - 1;
      LeftBy(sz, events[n], answers[n], Left(sz, events[..n], answers[..n]))
  }

  /** ... and the message that was waiting at each swap. */
  function Inbox(sz: nat, events: seq<Event>, answers: seq<Answer>): seq<Text>
    requires |events| == |answers|
  {
    if events == [] then []
    else
      var n := |events| - 1;
      Inbox(sz, events[..n], answers[..n]) + WaitingOf(answers[n], Left(sz, events[..n], answers[..n]))
  }

  /** The log is what events and answers say. */
  predicate Told(wide: bool, sz: nat, log: Log, events: seq<Event>, answers: seq<Answer>)
    requires |events| == |answers|
  {
    && log.granted == Grants(events, answers) && log.delivered == Bytes(answers)
    && log.inbox == Inbox(sz, events, answers) && log.seen == Parsed(wide, Blocks(answers))
  }

  /** What the host makes of the blocks. */
  function Parsed(wide: bool, blocks: seq<Text>): seq<Option<seq<Item>>> {
    seq(|blocks|, i requires 0 <= i < |blocks| => Parse(wide, blocks[i]))
  }

  lemma ToldNext(b: Book, events: seq<Event>, answers: seq<Answer>)
    requires |events| == |answers| > 0
    requires var n := |events| - 1;
             && Told(b.wide, b.sz, b.log, events[..n], answers[..n]) && Message(b) == Left(b.sz, events[..n], answers[..n])
             && Right(b, events[n], answers[n])
    ensures var b1 := Next(b, events[|events| - 1], answers[|events| - 1]);
            Told(b.wide, b.sz, b1.log, events, answers) && Message(b1) == Left(b.sz, events, answers)
  {
    var n := |events| - 1;
    LogGrows(b, events[n], answers[n]);
    ParsedConcat(b.wide, Blocks(answers[..n]), BlockOf(answers[n]));
  }

  lemma ParsedConcat(wide: bool, x: seq<Text>, y: seq<Text>)
    ensures Parsed(wide, x + y) == Parsed(wide, x) + Parsed(wide, y)
  {
  }

  lemma {:induction false} SetupStays(b: Book, events: seq<Event>, answers: seq<Answer>)
    requires |events| == |answers|
    ensures SameSetup(b, After(b, events, answers))
    decreases |events|
  {
    if events != [] {
      var n := |events| - 1;
      SetupStays(b, events[..n], answers[..n]);
      NextSetup(After(b, events[..n], answers[..n]), events[n], answers[n]);
    }
  }

  predicate SameSetup(b: Book, b1: Book) {
    b1.wide == b.wide && b1.sz == b.sz && b1.cap == b.cap
  }

  lemma NextSetup(b: Book, e: Event, a: Answer)
    ensures SameSetup(b, Next(b, e, a))
  {
  }

  lemma {:induction false} BookBalances(b0: Ledger, events: seq<Event>, answers: seq<Answer>)
    requires |events| == |answers| && AllRight(b0, events, answers)
    requires Told(b0.wide, b0.sz, b0.log, [], []) && Message(b0) == []
    ensures var b := After(b0, events, answers);
            Kept(b) && Told(b0.wide, b0.sz, b.log, events, answers) && Message(b) == Left(b0.sz, events, answers)
    decreases |events|
  {
    if events != [] {
      var n := |events| - 1;
      BookBalances(b0, events[..n], answers[..n]);
      SetupStays(b0, events[..n], answers[..n]);
      var b := After(b0, events[..n], answers[..n]);
      NextKeeps(b, events[n], answers[n]);
      ToldNext(b, events, answers);
    }
  }

  /**
   Any session whose events are answered as they have to be: every block handed over parses into exactly the records
   handed out in between, none lost, split or reordered, and what the target has received is a prefix of what the
   ring took from the messages waiting at the swaps, in order.
   */
  lemma SessionTells(wide: bool, sz: nat, cap: nat, rd: nat, events: seq<Event>, answers: seq<Answer>)
    requires BlockSizeOk(wide, sz) && |events| == |answers| && AllRight(Opened(wide, sz, cap, rd), events, answers)
    ensures var b := After(Opened(wide, sz, cap, rd), events, answers);
            && Told(wide, sz, b.log, events, answers)
            && HostSees(wide, b.log) && NothingLost(b.log, b.recs) && MailInOrder(b.log, b.queued)
  {
    var b0 := Opened(wide, sz, cap, rd);
    assert Parsed(wide, []) == [];
    BookBalances(b0, events, answers);
    SetupStays(b0, events, answers);
  }

  // ---------------------------------------------------------------------------------------------
  // The session in memory follows the book
  // ---------------------------------------------------------------------------------------------

  /** The book says what is in memory. */
  ghost predicate InSync(m: Membufs, b: Book)
    reads m, m.block0, m.block1, m.ring, m.ring.data
  {
    && m.Valid() && m.ring.Valid() && m.ring.Whole()
    && b.wide == m.wide && b.sz == m.sz && b.cap == m.ring.data.Length && |b.log.retired| == m.inBlock
    && b.recs == m.recs[m.Current()] && b.queued == m.ring.Contents() && b.rd == m.ring.rd
    && (b.h.intact ==> !b.h.pending && m.RetiredIntact() && b.lateRecs == m.recs[1 - m.Current()])
    && (b.h.pending ==> m.HostFits(1 - m.Current()) && m.HostData(1 - m.Current()) == b.log.mail)
  }

  /** What the host has left in its block is still there. */
  twostate predicate HostSame(m: Membufs)
    requires old(m.Shape())
    requires m.Shape()
    reads m, m.block0, m.block1
  {
    && m.HostFits(1 - m.Current()) == old(m.HostFits(1 - m.Current()))
    && m.HostData(1 - m.Current()) == old(m.HostData(1 - m.Current()))
  }

  /** The event was answered as it has to be, and book and hands agree with memory again. */
  ghost predicate Done(m: Membufs, b: Book, e: Event, a: Answer, h1: Hands)
    reads m, m.block0, m.block1, m.ring, m.ring.data
  {
    Right(b, e, a) && InSync(m, Next(b, e, a)) && Next(b, e, a).h == h1
  }

  /** What a swap starts from, according to the book. */
  function SnapOf(b: Book): Snapshot
    requires AllFit(b.wide, b.recs)
  {
    Snapshot(|b.log.retired|, b.recs, Marker(b), b.queued, b.cap, b.rd, Part(b))
  }

  lemma InSyncSnap(m: Membufs, b: Book)
    requires InSync(m, b)
    ensures AllFit(b.wide, b.recs) && m.markers[m.Current()] == Marker(b) && m.Snap(b.h.pending) == SnapOf(b)
    ensures m.ring.IsEmpty() <==> b.queued == []
  {
    m.ring.EmptyIs();
  }

  /** A swap has happened since the book was written. */
  ghost predicate JustSwapped(m: Membufs, b: Book, recs: seq<Rec>)
    reads m, m.block0, m.block1, m.ring, m.ring.data
  {
    && AllFit(b.wide, b.recs) && m.Valid() && m.ring.Valid() && m.ExchangedBut(SnapOf(b)) && m.recs[m.Current()] == recs
    && b.wide == m.wide && b.sz == m.sz && b.cap == m.ring.data.Length
  }

  /** The host is given the block. */
  method HandOver(m: Membufs, ghost b: Book, ghost recs: seq<Rec>) returns (block: Text)
    requires JustSwapped(m, b, recs)
    ensures block == m.Block(1 - m.Current())[..m.markers[1 - m.Current()]] == Serialize(b.wide, b.recs)
    ensures InSync(m, Swapped(b, block).(recs := recs))
  {
    block := m.Block(1 - m.Current())[..m.markers[1 - m.Current()]];
    assert block == m.Block(1 - m.Current())[..][..m.markers[1 - m.Current()]];
  }

  /** A user asks for a region. */
  method Get(m: Membufs, h: Hands, ghost b: Ledger, size: nat, core: Core, starts: seq<bool>)
    returns (h1: Hands, a: Answer)
    requires InSync(m, b) && b.h == h
    modifies m, m.block0, m.block1, m.ring, m.ring.data
    ensures Done(m, b, Event.Get(size, core, starts), a, h1)
  {
    InSyncSnap(m, b);
    if size <= m.MaxPayload() && !m.Full(size) {
      h1, a := GetInPlace(m, h, b, size, core, starts);
    } else if size <= m.MaxPayload() && true in starts {
      h1, a := GetAfterSwap(m, h, b, size, core, starts);
    } else {
      h1 := h;
      a := GetInVain(m, h, b, size, core, starts);
    }
  }

  method GetInVain(m: Membufs, h: Hands, ghost b: Ledger, size: nat, core: Core, starts: seq<bool>) returns (a: Answer)
    requires InSync(m, b) && b.h == h
    requires size <= PayloadLimit(b.wide, b.sz) ==> Crowded(b, size) && true !in starts
    modifies m, m.block0, m.block1, m.ring, m.ring.data
    ensures Done(m, b, Event.Get(size, core, starts), a, h)
  {
    InSyncSnap(m, b);
    var p := m.UpBufferGet(size, core, starts, h.pending);
    a := Answer(None, Nothing);
  }

  method GetInPlace(m: Membufs, h: Hands, ghost b: Ledger, size: nat, core: Core, starts: seq<bool>)
    returns (h1: Hands, a: Answer)
    requires InSync(m, b) && b.h == h && size <= PayloadLimit(b.wide, b.sz) && !Crowded(b, size)
    modifies m, m.block0, m.block1, m.ring, m.ring.data
    ensures Done(m, b, Event.Get(size, core, starts), a, h1)
  {
    var p, found := TryInPlace(m, h, b, size, core, starts);
    h1, a := h.(users := h.users + [Region(p, size)]), Answer(None, Granted(p, found));
    GrantIs(b, size, core, starts, a);
  }

  lemma GrantIs(b: Ledger, size: nat, core: Core, starts: seq<bool>, a: Answer)
    requires a.reply.Granted? && |a.reply.found| == size <= PayloadLimit(b.wide, b.sz) && (Crowded(b, size) ==> true in starts)
    requires a.reply.ptr == HeaderSize(b.wide) + if Crowded(b, size) then 0 else Marker(b)
    requires a.handed == if Crowded(b, size) then Some(Serialize(b.wide, b.recs)) else None
    ensures var e := Event.Get(size, core, starts);
            && Right(b, e, a)
            && Next(b, e, a) == Granting(if Crowded(b, size) then Swapped(b, a.handed.value) else b, Rec(core, false, a.reply.found), a.reply.ptr)
  {
  }

  method TryInPlace(m: Membufs, h: Hands, ghost b: Ledger, size: nat, core: Core, starts: seq<bool>)
    returns (p: nat, found: Text)
    requires InSync(m, b) && b.h == h && size <= PayloadLimit(b.wide, b.sz) && !Crowded(b, size)
    modifies m, m.block0, m.block1, m.ring, m.ring.data
    ensures p == HeaderSize(b.wide) + Marker(b) && |found| == size && InSync(m, Granting(b, Rec(core, false, found), p))
  {
    InSyncSnap(m, b);
    p, found := GrantInPlace(m, size, core, starts, h.pending);
  }

  /** The call itself when it finds room. */
  method GrantInPlace(m: Membufs, size: nat, core: Core, starts: seq<bool>, pending: bool) returns (p: nat, found: Text)
    requires m.Valid() && m.ring.Valid() && (pending ==> m.HostFits(1 - m.Current()))
    requires size <= m.MaxPayload() && !m.Full(size)
    modifies m, m.block0, m.block1, m.ring, m.ring.data
    ensures m.Valid() && p == HeaderSize(m.wide) + old(m.markers[m.Current()]) && |found| == size
    ensures m.inBlock == old(m.inBlock) && m.recs[m.Current()] == old(m.recs[m.Current()]) + [Rec(core, false, found)]
    ensures m.recs[1 - m.Current()] == old(m.recs[1 - m.Current()]) && (old(m.RetiredIntact()) ==> m.RetiredIntact())
    ensures HostSame(m) && unchanged(m.ring) && unchanged(m.ring.data)
  {
    var ptr := m.UpBufferGet(size, core, starts, pending);
    p := ptr.value;
    found := m.Block(m.Current())[p..p + size];
  }

  method GetAfterSwap(m: Membufs, h: Hands, ghost b: Ledger, size: nat, core: Core, starts: seq<bool>)
    returns (h1: Hands, a: Answer)
    requires InSync(m, b) && b.h == h && Swaps(b, Event.Get(size, core, starts))
    modifies m, m.block0, m.block1, m.ring, m.ring.data
    ensures Done(m, b, Event.Get(size, core, starts), a, h1)
  {
    var p, found := SwapByGet(m, h, b, size, core, starts);
    var block := HandOver(m, b, [Rec(core, false, found)]);
    h1 := Hands([Region(p, size)], h.users, true, false);
    a := Answer(Some(block), Granted(p, found));
    GrantIs(b, size, core, starts, a);
  }

  method SwapByGet(m: Membufs, h: Hands, ghost b: Ledger, size: nat, core: Core, starts: seq<bool>)
    returns (p: nat, found: Text)
    requires InSync(m, b) && b.h == h && Swaps(b, Event.Get(size, core, starts))
    modifies m, m.block0, m.block1, m.ring, m.ring.data
    ensures p == HeaderSize(b.wide) && |found| == size && JustSwapped(m, b, [Rec(core, false, found)])
  {
    InSyncSnap(m, b);
    p := GrantAfterSwap(m, size, core, starts, h.pending);
    found := ContentOf(m, p, size);
  }

  /** What lies in the block in use at `p`. */
  method ContentOf(m: Membufs, p: nat, size: nat) returns (found: Text)
    requires m.Valid() && p + size <= m.sz
    ensures found == m.Block(m.Current())[p..p + size] && |found| == size
  {
    found := m.Block(m.Current())[p..p + size];
  }

  /** The call itself when it swaps. */
  method GrantAfterSwap(m: Membufs, size: nat, core: Core, starts: seq<bool>, pending: bool) returns (p: nat)
    requires m.Valid() && m.ring.Valid() && (pending ==> m.HostFits(1 - m.Current()))
    requires size <= m.MaxPayload() && m.Full(size) && true in starts
    modifies m, m.block0, m.block1, m.ring, m.ring.data
    ensures m.Valid() && m.ring.Valid() && m.ExchangedBut(old(m.Snap(pending)))
    ensures p == HeaderSize(m.wide) && p + size <= m.sz
    ensures m.recs[m.Current()] == [Rec(core, false, m.Block(m.Current())[p..p + size])]
  {
    var ptr := m.UpBufferGet(size, core, starts, pending);
    p := ptr.value;
  }

  /** A user writes the payload of a region in the block in use. */
  method WriteRegion(m: Membufs, h: Hands, ghost b: Ledger, k: nat, bytes: Text)
    requires InSync(m, b) && b.h == h && k < |h.users| && |bytes| == h.users[k].size
    modifies m, m.block0, m.block1
    ensures Done(m, b, Event.Write(k, bytes), Answer(None, Nothing), h)
  {
    m.UserWrites(m.Current(), h.users[k].ptr, bytes, k);
  }

  /** A user puts a region of the block in use back. */
  method PutRegion(m: Membufs, h: Hands, ghost b: Ledger, k: nat)
    requires InSync(m, b) && b.h == h && k < |h.users|
    modifies m, m.block0, m.block1
    ensures Done(m, b, Event.Put(k), Answer(None, Nothing), h)
  {
    m.UpBufferPut(m.Current(), h.users[k].ptr, k);
  }

  /** A user is late: the block was handed over meanwhile, but the host has not written there. */
  method PutLateRegion(m: Membufs, h: Hands, ghost b: Ledger, k: nat)
    requires InSync(m, b) && b.h == h && h.intact && k < |h.late|
    modifies m, m.block0, m.block1
    ensures Done(m, b, Event.PutLate(k), Answer(None, Nothing), h)
  {
    m.UpBufferPut(1 - m.Current(), h.late[k].ptr, k);
  }

  /** The host leaves a message in its block. */
  method SendFromHost(m: Membufs, h: Hands, ghost b: Ledger, bytes: Text) returns (h1: Hands)
    requires InSync(m, b) && b.h == h && FitsMail(m.sz, bytes)
    modifies m.block0, m.block1
    ensures Done(m, b, Event.HostSends(bytes), Answer(None, Nothing), h1)
  {
    m.HostWrites(bytes);
    h1 := h.(intact := false, pending := true);
  }

  /** A flush. */
  method FlushBlock(m: Membufs, h: Hands, ghost b: Ledger, minSz: nat, starts: seq<bool>) returns (h1: Hands, a: Answer)
    requires InSync(m, b) && b.h == h
    modifies m, m.block0, m.block1, m.ring, m.ring.data
    ensures Done(m, b, Event.Flush(minSz, starts), a, h1)
  {
    InSyncSnap(m, b);
    if m.markers[m.Current()] > minSz && true in starts {
      h1, a := FlushAfterSwap(m, h, b, minSz, starts);
    } else {
      h1 := h;
      a := FlushInPlace(m, h, b, minSz, starts);
    }
  }

  method FlushInPlace(m: Membufs, h: Hands, ghost b: Ledger, minSz: nat, starts: seq<bool>) returns (a: Answer)
    requires InSync(m, b) && b.h == h && !Swaps(b, Event.Flush(minSz, starts))
    modifies m, m.block0, m.block1, m.ring, m.ring.data
    ensures Done(m, b, Event.Flush(minSz, starts), a, h)
  {
    InSyncSnap(m, b);
    var ok := m.Flush(minSz, starts, h.pending);
    a := Answer(None, Flushed(ok));
  }

  method FlushAfterSwap(m: Membufs, h: Hands, ghost b: Ledger, minSz: nat, starts: seq<bool>)
    returns (h1: Hands, a: Answer)
    requires InSync(m, b) && b.h == h && Swaps(b, Event.Flush(minSz, starts))
    modifies m, m.block0, m.block1, m.ring, m.ring.data
    ensures Done(m, b, Event.Flush(minSz, starts), a, h1)
  {
    SwapByFlush(m, h, b, minSz, starts);
    var block := HandOver(m, b, []);
    h1, a := Hands([], h.users, true, false), Answer(Some(block), Flushed(true));
  }

  method SwapByFlush(m: Membufs, h: Hands, ghost b: Ledger, minSz: nat, starts: seq<bool>)
    requires InSync(m, b) && b.h == h && Swaps(b, Event.Flush(minSz, starts))
    modifies m, m.block0, m.block1, m.ring, m.ring.data
    ensures JustSwapped(m, b, [])
  {
    InSyncSnap(m, b);
    var ok := m.Flush(minSz, starts, h.pending);
  }

  /** A user on the target asks for bytes from the host. */
  method PollHost(m: Membufs, h: Hands, ghost b: Ledger, limit: nat, starts: seq<bool>) returns (h1: Hands, a: Answer)
    requires InSync(m, b) && b.h == h
    modifies m, m.block0, m.block1, m.ring, m.ring.data
    ensures Done(m, b, Event.Poll(limit, starts), a, h1)
  {
    InSyncSnap(m, b);
    if !m.ring.IsEmpty() {
      h1 := h;
      a := ReadQueued(m, h, b, limit, starts);
    } else if h.pending && true in starts {
      h1, a := PollAfterSwap(m, h, b, limit, starts);
    } else {
      h1 := h;
      a := PollInVain(m, h, b, limit, starts);
    }
  }

  method PollInVain(m: Membufs, h: Hands, ghost b: Ledger, limit: nat, starts: seq<bool>) returns (a: Answer)
    requires InSync(m, b) && b.h == h && b.queued == [] && !Swaps(b, Event.Poll(limit, starts))
    modifies m, m.block0, m.block1, m.ring, m.ring.data
    ensures Done(m, b, Event.Poll(limit, starts), a, h)
  {
    InSyncSnap(m, b);
    var ptr, size := m.DownBufferPoll(limit, starts, h.pending);
    a := Answer(None, Nothing);
  }

  method PollAfterSwap(m: Membufs, h: Hands, ghost b: Ledger, limit: nat, starts: seq<bool>) returns (h1: Hands, a: Answer)
    requires InSync(m, b) && b.h == h && Swaps(b, Event.Poll(limit, starts))
    modifies m, m.block0, m.block1, m.ring, m.ring.data
    ensures Done(m, b, Event.Poll(limit, starts), a, h1)
  {
    SwapByPoll(m, h, b, limit, starts);
    var block := HandOver(m, b, []);
    h1, a := Hands([], h.users, true, false), Answer(Some(block), Nothing);
  }

  method ReadQueued(m: Membufs, h: Hands, ghost b: Ledger, limit: nat, starts: seq<bool>) returns (a: Answer)
    requires InSync(m, b) && b.h == h && b.queued != []
    modifies m, m.block0, m.block1, m.ring, m.ring.data
    ensures Done(m, b, Event.Poll(limit, starts), a, h)
  {
    var bytes := ReadPiece(m, h, b, limit, starts);
    a := Answer(None, Received(bytes));
    ReadingIs(b, limit, starts, bytes);
    ReadingSyncs(m, b, bytes);
  }

  /** The book without the first `n` queued bytes. */
  function Shortened(b: Book, n: nat): Book
    requires n <= |b.queued|
  {
    b.(queued := b.queued[n..], rd := Advance(b.rd, n, b.cap))
  }

  lemma ReadingSyncs(m: Membufs, b: Book, bytes: Text)
    requires bytes <= b.queued && InSync(m, Shortened(b, |bytes|))
    ensures InSync(m, Reading(b, bytes))
  {
  }

  lemma ReadingIs(b: Ledger, limit: nat, starts: seq<bool>, bytes: Text)
    requires b.queued != [] && bytes == Take(b.queued, Min(limit, b.cap - b.rd))
    ensures var e, a := Event.Poll(limit, starts), Answer(None, Received(bytes));
            Right(b, e, a) && Next(b, e, a) == Reading(b, bytes)
  {
  }

  method ReadPiece(m: Membufs, h: Hands, ghost b: Ledger, limit: nat, starts: seq<bool>) returns (bytes: Text)
    requires InSync(m, b) && b.h == h && b.queued != []
    modifies m, m.block0, m.block1, m.ring, m.ring.data
    ensures bytes == Take(b.queued, Min(limit, b.cap - b.rd)) && InSync(m, Shortened(b, |bytes|))
  {
    m.ring.EmptyIs();
    bytes := TakeBytes(m, limit, starts, h.pending, b.queued, b.rd);
    assert BlocksSync(m, b);
  }

  /** The part of InSync that is not about the ring. */
  ghost predicate BlocksSync(m: Membufs, b: Book)
    reads m, m.block0, m.block1
  {
    && m.Valid() && b.wide == m.wide && b.sz == m.sz && |b.log.retired| == m.inBlock && b.recs == m.recs[m.Current()]
    && (b.h.intact ==> !b.h.pending && m.RetiredIntact() && b.lateRecs == m.recs[1 - m.Current()])
    && (b.h.pending ==> m.HostFits(1 - m.Current()) && m.HostData(1 - m.Current()) == b.log.mail)
  }

  /** The call itself when there are bytes in the ring. */
  method TakeBytes(m: Membufs, limit: nat, starts: seq<bool>, pending: bool, ghost queued: Text, ghost rd: nat) returns (bytes: Text)
    requires m.Valid() && m.ring.Valid() && m.ring.Whole() && (pending ==> m.HostFits(1 - m.Current())) && !m.ring.IsEmpty()
    requires m.ring.Contents() == queued && m.ring.rd == rd
    modifies m, m.block0, m.block1, m.ring, m.ring.data
    ensures unchanged(m) && unchanged(m.block0) && unchanged(m.block1) && m.ring.Valid() && m.ring.Whole()
    ensures bytes == Take(queued, Min(limit, m.ring.data.Length - rd)) && m.ring.Contents() == queued[|bytes|..]
    ensures m.ring.rd == Advance(rd, |bytes|, m.ring.data.Length)
  {
    var ptr, size := m.DownBufferPoll(limit, starts, pending);
    bytes := m.ring.data[ptr.value..ptr.value + size];
  }

  method SwapByPoll(m: Membufs, h: Hands, ghost b: Ledger, limit: nat, starts: seq<bool>)
    requires InSync(m, b) && b.h == h && Swaps(b, Event.Poll(limit, starts))
    modifies m, m.block0, m.block1, m.ring, m.ring.data
    ensures JustSwapped(m, b, [])
  {
    InSyncSnap(m, b);
    var ptr, size := m.DownBufferPoll(limit, starts, h.pending);
  }

  /** The event is one of a user's or the host's that can occur, or one of the target's calls. */
  predicate Occurs(sz: nat, h: Hands, e: Event) {
    match e
    case Write(k, bytes) => k < |h.users| && |bytes| == h.users[k].size
    case Put(k) => k < |h.users|
    case PutLate(k) => h.intact && k < |h.late|
    case HostSends(bytes) => FitsMail(sz, bytes)
    case _ => true
  }

  lemma IdleIs(b: Ledger, e: Event)
    requires !Occurs(b.sz, b.h, e)
    ensures Right(b, e, Answer(None, Nothing)) && Next(b, e, Answer(None, Nothing)) == b
  {
  }

  /** One event. */
  method Handle(m: Membufs, h: Hands, ghost b: Ledger, e: Event) returns (h1: Hands, a: Answer)
    requires InSync(m, b) && b.h == h
    modifies m, m.block0, m.block1, m.ring, m.ring.data
    ensures Done(m, b, e, a, h1)
  {
    h1, a := h, Answer(None, Nothing);
    if !Occurs(m.sz, h, e) {
      IdleIs(b, e);
      return;
    }
    match e {
      case Get(size, core, starts) => h1, a := Get(m, h, b, size, core, starts);
      case Write(k, bytes) => WriteRegion(m, h, b, k, bytes);
      case Put(k) => PutRegion(m, h, b, k);
      case PutLate(k) => PutLateRegion(m, h, b, k);
      case Flush(minSz, starts) => h1, a := FlushBlock(m, h, b, minSz, starts);
      case Poll(limit, starts) => h1, a := PollHost(m, h, b, limit, starts);
      case HostSends(bytes) => h1 := SendFromHost(m, h, b, bytes);
    }
  }

  /**
   Any run of events from the start: every event is answered as the book says, the book balances, and memory holds
   what the book says at the end.
   */
  method Run(m: Membufs, events: seq<Event>) returns (answers: seq<Answer>, ghost log: Log)
    requires m.Valid() && m.ring.Valid() && m.ring.Whole()
    requires m.inBlock == 0 && m.recs == [[], []] && m.ring.Contents() == []
    modifies m, m.block0, m.block1, m.ring, m.ring.data
    ensures |answers| == |events|
    ensures var b0 := Opened(m.wide, m.sz, m.ring.data.Length, old(m.ring.rd));
            && AllRight(b0, events, answers) && InSync(m, After(b0, events, answers)) && log == After(b0, events, answers).log
    // what the host makes of the blocks it was given, and what the target received
    ensures Told(m.wide, m.sz, log, events, answers) && |log.seen| == m.inBlock
    ensures HostSees(m.wide, log) && NothingLost(log, m.recs[m.Current()]) && MailInOrder(log, m.ring.Contents())
  {
    var h := Hands([], [], false, false);
    ghost var b0 := Opened(m.wide, m.sz, m.ring.data.Length, m.ring.rd);
    answers := [];
    for i := 0 to |events|
      invariant Follows(m, b0, events[..i], answers, h)
    {
      Snoc(events, i);
      h, answers := Proceed(m, h, b0, events[..i], answers, events[i]);
    }
    All(events);
    log := After(b0, events, answers).log;
    SessionTells(m.wide, m.sz, m.ring.data.Length, old(m.ring.rd), events, answers);
  }

  lemma Snoc(events: seq<Event>, i: nat)
    requires i < |events|
    ensures events[..i + 1] == events[..i] + [events[i]]
  {
  }

  lemma All(events: seq<Event>)
    ensures events[..|events|] == events
  {
  }

  /** So far every event was answered as it has to be, and memory is what the book says. */
  ghost predicate Follows(m: Membufs, b0: Book, events: seq<Event>, answers: seq<Answer>, h: Hands)
    reads m, m.block0, m.block1, m.ring, m.ring.data
  {
    && |events| == |answers| && AllRight(b0, events, answers)
    && InSync(m, After(b0, events, answers)) && Kept(After(b0, events, answers)) && After(b0, events, answers).h == h
  }

  method Proceed(m: Membufs, h: Hands, ghost b0: Book, ghost events: seq<Event>, answers: seq<Answer>, e: Event)
    returns (h1: Hands, answers1: seq<Answer>)
    requires Follows(m, b0, events, answers, h)
    modifies m, m.block0, m.block1, m.ring, m.ring.data
    ensures Follows(m, b0, events + [e], answers1, h1)
  {
    ghost var b := After(b0, events, answers);
    var a;
    h1, a := Handle(m, h, b, e);
    NextKeeps(b, e, a);
    AfterSnoc(b0, events, answers, e, a);
    answers1 := answers + [a];
  }
}

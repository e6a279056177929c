/** A peer that answers: whatever order it chooses and whatever else it says in between, the download ends in the
    metadata it serves. */
module MetadataHonest {
  import opened Wrappers
  import opened Bytes
  import opened XorMetric
  import B = Bencode
  import BP = BencodeProofs
  import D = Decimal
  import P = Packing
  import opened Metadata
  import opened MetadataProofs

  // ---- What the peer sends ----

  function DataHeader(piece: nat, size: nat): B.Value {
    B.Dict(map[Ascii("msg_type") := B.Int(1), Ascii("piece") := B.Int(piece)][Ascii("total_size") := B.Int(size)])
  }

  /** The header of a request (0) or a reject (2). */
  function NoteHeader(kind: nat, piece: nat): B.Value {
    B.Dict(map[Ascii("msg_type") := B.Int(kind), Ascii("piece") := B.Int(piece)])
  }

  /** The message that carries piece p of m. */
  ghost function DataBody(m: bytes, p: nat): bytes
    requires p * BLOCK <= |m|
  {
    [EXTENDED, LOCAL_ID] + (B.Encode(DataHeader(p, |m|)) + Slice(m, p))
  }

  ghost function NoteBody(kind: nat, p: nat): bytes {
    [EXTENDED, LOCAL_ID] + (B.Encode(NoteHeader(kind, p)) + [])
  }

  /** An answer to a request, and what may come in between: an answer once more, a keep-alive, a request by the peer,
      a reject of a piece that is not under way, another handshake, or a message that means nothing to the session. */
  datatype Item =
    | Answer(piece: nat)
    | Repeat(piece: nat)
    | KeepAlive
    | Asks(piece: nat)
    | Rejects(piece: nat)
    | Handshake(payload: bytes)
    | Chatter(body: bytes)

  predicate Ignored(body: bytes) {
    body != [] && (body[0] != EXTENDED || |body| < 2 || (body[1] != 0 && body[1] != LOCAL_ID))
  }

  /** A handshake that the session accepts: it advertises no number, or one that is not zero. */
  predicate Harmless(payload: bytes, cfg: Config) {
    var x := ParseExtension(payload, cfg);
    x.ExtensionOk? && x.utMetadata != Some(0)
  }

  ghost function Body(m: bytes, it: Item): bytes
    requires it.Answer? || it.Repeat? ==> it.piece * BLOCK <= |m|
  {
    match it
    case Answer(p) => DataBody(m, p)
    case Repeat(p) => DataBody(m, p)
    case KeepAlive => []
    case Asks(p) => NoteBody(0, p)
    case Rejects(p) => NoteBody(2, p)
    case Handshake(payload) => [EXTENDED, 0] + payload
    case Chatter(body) => body
  }

  ghost predicate Framable(job: Job, body: bytes) {
    |body| <= job.cfg.maxMessage && |body| < Pow2(32)
  }

  /** What the peer may send at all: pieces in range, and messages within the receiver's limits. */
  ghost predicate Sendable(job: Job, m: bytes, it: Item) {
    match it
    case Answer(p) => p < job.Count() && p * BLOCK <= |m|
    case Repeat(p) => p < job.Count() && p * BLOCK <= |m|
    case KeepAlive => true
    case Asks(p) => p < job.Count() && B.Fits(NoteHeader(0, p), job.cfg.lim, 0, 0) && Framable(job, NoteBody(0, p))
    case Rejects(p) => p < job.Count() && B.Fits(NoteHeader(2, p), job.cfg.lim, 0, 0) && Framable(job, NoteBody(2, p))
    case Handshake(payload) => Harmless(payload, job.cfg) && Framable(job, [EXTENDED, 0] + payload)
    case Chatter(body) => Ignored(body) && Framable(job, body)
  }

  function Framed(body: bytes): bytes {
    ToBytes(|body|, 4) + body
  }

  ghost function Wire(m: bytes, it: Item): bytes
    requires it.Answer? || it.Repeat? ==> it.piece * BLOCK <= |m|
  {
    Framed(Body(m, it))
  }

  ghost predicate AllSendable(job: Job, m: bytes, items: seq<Item>) {
    forall it :: it in items ==> Sendable(job, m, it)
  }

  ghost function Traffic(job: Job, m: bytes, items: seq<Item>): bytes
    requires AllSendable(job, m, items)
    decreases |items|
  {
    if items == [] then []
    else
      assert items[0] in items;
      Wire(m, items[0]) + Traffic(job, m, items[1..])
  }

  /** The messages of the pieces of m are within the receiver's limits. */
  ghost predicate Deliverable(job: Job, m: bytes) {
    |m| == job.size && forall p: nat :: p < job.Count() ==> Carriable(job, m, p)
  }

  ghost predicate Carriable(job: Job, m: bytes, p: nat) {
    p * BLOCK <= |m| && B.Fits(DataHeader(p, |m|), job.cfg.lim, 0, 0) && Framable(job, DataBody(m, p))
  }

  // ---- What the session makes of it ----

  ghost function Advance(job: Job, st: Session, m: bytes, it: Item): Session
    requires it.Answer? || it.Repeat? ==> it.piece * BLOCK <= |m|
  {
    match it
    case Answer(p) => Fill(job, Accept(st, p, Slice(m, p)))
    case Repeat(p) => st.(log := st.log + [(p, Slice(m, p))])
    case Asks(p) => st.(sent := st.sent + [Refusal(p)])
    case Handshake(payload) =>
      var x := ParseExtension(payload, job.cfg);
      if x.ExtensionOk? && x.utMetadata.Some? then st.(ext := x.utMetadata.value) else st
    case _ => st
  }

  /** An answer is to a request under way when it arrives, a repetition of a piece that is here, a reject of a piece
      that is not under way. */
  ghost predicate Timely(st: Session, it: Item) {
    match it
    case Answer(p) => p in st.outstanding
    case Repeat(p) => p in st.pieces
    case Rejects(p) => p !in st.outstanding
    case _ => true
  }

  ghost predicate InTurn(job: Job, st: Session, m: bytes, items: seq<Item>)
    requires AllSendable(job, m, items)
    decreases |items|
  {
    items == [] ||
    (assert items[0] in items;
     Timely(st, items[0]) && InTurn(job, Advance(job, st, m, items[0]), m, items[1..]))
  }

  ghost function After(job: Job, st: Session, m: bytes, items: seq<Item>): Session
    requires AllSendable(job, m, items)
    decreases |items|
  {
    if items == [] then st
    else
      assert items[0] in items;
      After(job, Advance(job, st, m, items[0]), m, items[1..])
  }

  lemma AnswerRead(job: Job, m: bytes, p: nat)
    requires |m| == job.size && Carriable(job, m, p) && p < job.Count()
    ensures ParseMessage(DataBody(m, p)[2..], job.size, job.Count(), job.cfg.lim) == MessageOk(1, p, Slice(m, p))
  {
    hide B.Encode, B.Fits, ParseMessage;
    var h := DataHeader(p, |m|);
    assert DataBody(m, p)[2..] == B.Encode(h) + Slice(m, p);
    FramingIsExact(h, Slice(m, p), job.size, job.Count(), job.cfg.lim);
    HeaderFields(p, |m|);
    CountBounds(job.size, p);
    assert |Slice(m, p)| == PieceSize(job.size, p);
  }

  lemma NoteRead(job: Job, kind: nat, p: nat)
    requires kind == 0 || kind == 2
    requires p < job.Count() && B.Fits(NoteHeader(kind, p), job.cfg.lim, 0, 0)
    ensures ParseMessage(NoteBody(kind, p)[2..], job.size, job.Count(), job.cfg.lim) == MessageOk(kind, p, [])
  {
    hide B.Encode, B.Fits, ParseMessage;
    var h := NoteHeader(kind, p);
    assert NoteBody(kind, p)[2..] == B.Encode(h) + [];
    FramingIsExact(h, [], job.size, job.Count(), job.cfg.lim);
    assert |Ascii("msg_type")| == 8 && |Ascii("piece")| == 5;
  }

  lemma HeaderFields(p: nat, size: nat)
    ensures var h := DataHeader(p, size);
            && Get(h.entries, Ascii("msg_type")) == Some(B.Int(1))
            && Get(h.entries, Ascii("piece")) == Some(B.Int(p))
            && Get(h.entries, Ascii("total_size")) == Some(B.Int(size))
            && |h.entries.Keys| == 3
  {
    var a, b, c := Ascii("msg_type"), Ascii("piece"), Ascii("total_size");
    assert |a| == 8 && |b| == 5 && |c| == 10;
    assert DataHeader(p, size).entries.Keys == {a, b, c};
  }

  /** Every accepted datum is a true piece of m. */
  ghost predicate TrueSoFar(st: Session, m: bytes) {
    forall x :: x in st.log ==> x.0 * BLOCK <= |m| && x.1 == Slice(m, x.0)
  }

  lemma OutstandingNotHere(job: Job, st: Session, p: nat)
    requires Underway(job, st) && p in st.outstanding
    ensures p !in st.pieces
  {
  }

  lemma HereIsTrue(job: Job, st: Session, m: bytes, p: nat)
    requires Underway(job, st) && TrueSoFar(st, m) && p in st.pieces
    ensures p !in st.outstanding && p * BLOCK <= |m| && st.pieces[p] == Slice(m, p)
  {
    assert (p, st.pieces[p]) in st.log;
  }

  lemma StepAnswer(job: Job, st: Session, m: bytes, p: nat)
    requires Underway(job, st) && |m| == job.size && Carriable(job, m, p) && p < job.Count() && p in st.outstanding
    ensures Step(job, st, DataBody(m, p)) == Continue(Advance(job, st, m, Answer(p)))
  {
    OutstandingNotHere(job, st, p);
    AnswerRead(job, m, p);
    hide ParseMessage, Fill, B.Encode, Carriable, Underway, Slice;
  }

  lemma StepRepeat(job: Job, st: Session, m: bytes, p: nat)
    requires Underway(job, st) && TrueSoFar(st, m) && |m| == job.size && Carriable(job, m, p) && p < job.Count()
    requires p in st.pieces
    ensures Step(job, st, DataBody(m, p)) == Continue(Advance(job, st, m, Repeat(p)))
  {
    HereIsTrue(job, st, m, p);
    AnswerRead(job, m, p);
    hide ParseMessage, Fill, B.Encode, Carriable, Underway, Slice, TrueSoFar;
  }

  lemma StepNote(job: Job, st: Session, kind: nat, p: nat)
    requires kind == 0 || (kind == 2 && p !in st.outstanding)
    requires p < job.Count() && B.Fits(NoteHeader(kind, p), job.cfg.lim, 0, 0)
    ensures Step(job, st, NoteBody(kind, p))
            == Continue(if kind == 0 then st.(sent := st.sent + [Refusal(p)]) else st)
  {
    NoteRead(job, kind, p);
    hide ParseMessage, Fill, B.Encode, B.Fits, NoteHeader;
  }

  lemma StepHandshake(job: Job, st: Session, m: bytes, payload: bytes)
    requires Harmless(payload, job.cfg)
    ensures Step(job, st, [EXTENDED, 0] + payload) == Continue(Advance(job, st, m, Handshake(payload)))
  {
    hide ParseExtension;
    assert ([EXTENDED, 0] + payload)[2..] == payload;
  }

  lemma StepIgnored(job: Job, st: Session, body: bytes)
    requires Ignored(body)
    ensures Step(job, st, body) == Continue(st)
  {
  }

  /** The session continues after every item that is sendable and timely, in the state that `Advance` says. */
  lemma StepItem(job: Job, st: Session, m: bytes, it: Item)
    requires Underway(job, st) && TrueSoFar(st, m) && Deliverable(job, m) && Sendable(job, m, it) && Timely(st, it)
    requires !it.KeepAlive?
    ensures Body(m, it) != [] && Framable(job, Body(m, it))
    ensures Step(job, st, Body(m, it)) == Continue(Advance(job, st, m, it))
  {
    hide Underway, TrueSoFar, Step, Slice, Accept, Fill, B.Fits, B.Encode, Harmless, ParseExtension;
    match it
    case Answer(p) => StepAnswer(job, st, m, p);
    case Repeat(p) => StepRepeat(job, st, m, p);
    case Asks(p) => StepNote(job, st, 0, p);
    case Rejects(p) => StepNote(job, st, 2, p);
    case Handshake(payload) => StepHandshake(job, st, m, payload);
    case Chatter(body) => StepIgnored(job, st, body);
  }

  /** Reading one framed message. */
  lemma RunFramed(job: Job, st: Session, stream: bytes, pos: nat, body: bytes, rest: bytes, st': Session)
    requires job.Startable() && pos <= |stream| && stream[pos..] == Framed(body) + rest && |st.pieces| < job.Count()
    requires Framable(job, body)
    requires if body == [] then st' == st else Step(job, st, body) == Continue(st')
    ensures var next := pos + 4 + |body|;
            next <= |stream| && stream[next..] == rest && Run(job, st, stream, pos) == Run(job, st', stream, next)
  {
    hide Step;
    var p := pos + 4 + |body|;
    var tail := stream[pos..];
    assert |tail| == 4 + |body| + |rest|;
    assert stream[pos..pos + 4] == tail[..4] == ToBytes(|body|, 4);
    FromToBytes(|body|, 4);
    assert stream[pos + 4..p] == tail[4..4 + |body|] == body;
    assert stream[p..] == tail[4 + |body|..] == rest;
  }

  // ---- The theorem ----

  lemma AdvanceTrue(job: Job, st: Session, m: bytes, it: Item)
    requires TrueSoFar(st, m) && Sendable(job, m, it)
    ensures TrueSoFar(Advance(job, st, m, it), m)
  {
    hide Fill, Slice, B.Fits, Harmless, ParseExtension, NoteBody, B.Encode;
    if it.Answer? { FillPieces(job, Accept(st, it.piece, Slice(m, it.piece))); }
  }

  lemma AdvancePieces(job: Job, st: Session, m: bytes, it: Item)
    requires Underway(job, st) && Sendable(job, m, it) && Timely(st, it)
    ensures |Advance(job, st, m, it).pieces| == |st.pieces| + if it.Answer? then 1 else 0
  {
    if it.Answer? { OutstandingNotHere(job, st, it.piece); }
    hide Underway, Fill, Slice, B.Fits, Harmless, ParseExtension, NoteBody, B.Encode;
    if it.Answer? {
      FillPieces(job, Accept(st, it.piece, Slice(m, it.piece)));
      OneMorePiece(st.pieces, it.piece, Slice(m, it.piece));
    }
  }

  lemma AdvanceKeeps(job: Job, st: Session, m: bytes, it: Item)
    requires Underway(job, st) && Filled(job, st) && TrueSoFar(st, m) && Deliverable(job, m)
    requires Sendable(job, m, it) && Timely(st, it)
    ensures var st' := Advance(job, st, m, it);
            Underway(job, st') && Filled(job, st') && TrueSoFar(st', m)
            && |st'.pieces| == |st.pieces| + if it.Answer? then 1 else 0
  {
    hide *;
    InRange(job, m, it);
    AdvanceTrue(job, st, m, it);
    AdvancePieces(job, st, m, it);
    if it.KeepAlive? {
      KeepAliveIsNothing(job, st, m);
    } else {
      StepItem(job, st, m, it);
      StepUnderway(job, st, Body(m, it));
    }
  }

  lemma InRange(job: Job, m: bytes, it: Item)
    requires Sendable(job, m, it)
    ensures it.Answer? || it.Repeat? ==> it.piece * BLOCK <= |m|
    ensures it.Answer? || it.Repeat? || it.Asks? || it.Rejects? ==> it.piece < job.Count()
  {
  }

  lemma KeepAliveIsNothing(job: Job, st: Session, m: bytes)
    ensures Body(m, KeepAlive) == [] && Framable(job, []) && Advance(job, st, m, KeepAlive) == st
  {
    assert Pow2(32) > 0;
  }

  lemma WireIsFramed(m: bytes, it: Item)
    requires it.Answer? || it.Repeat? ==> it.piece * BLOCK <= |m|
    ensures Wire(m, it) == Framed(Body(m, it))
  {
  }

  lemma CompleteIsTrue(job: Job, st: Session, stream: bytes, pos: nat, m: bytes)
    requires Underway(job, st) && Filled(job, st) && TrueSoFar(st, m) && |m| == job.size && pos <= |stream|
    requires |st.pieces| >= job.Count()
    ensures Run(job, st, stream, pos).outcome == Got(m)
  {
    RunSound(job, st, stream, pos);
    var e := Run(job, st, stream, pos);
    assert e == Ending(Finish(job, st), st);
    forall p: nat | p < PieceCount(job.size)
      ensures p * BLOCK <= |m| && Slice(e.outcome.raw, p) == Slice(m, p)
    {
      assert Logged(e.st.log, p);
      var d :| (p, d) in e.st.log;
    }
    SlicesDetermine(e.outcome.raw, m);
  }

  /** Reading one item of the traffic. */
  lemma ItemRead(job: Job, st: Session, stream: bytes, pos: nat, m: bytes, it: Item, rest: bytes) returns (next: nat)
    requires Underway(job, st) && TrueSoFar(st, m) && |st.pieces| < job.Count() && Deliverable(job, m)
    requires Sendable(job, m, it) && Timely(st, it)
    requires pos <= |stream| && stream[pos..] == Wire(m, it) + rest
    ensures job.Startable() && next <= |stream| && stream[next..] == rest
    ensures Run(job, st, stream, pos) == Run(job, Advance(job, st, m, it), stream, next)
  {
    hide *;
    UnderwayStartable(job, st);
    InRange(job, m, it);
    WireIsFramed(m, it);
    if it.KeepAlive? {
      KeepAliveIsNothing(job, st, m);
    } else {
      StepItem(job, st, m, it);
    }
    var body := Body(m, it);
    RunFramed(job, st, stream, pos, body, rest, Advance(job, st, m, it));
    next := pos + 4 + |body|;
  }

  lemma {:induction false} AnsweredRun(job: Job, st: Session, stream: bytes, pos: nat, m: bytes, items: seq<Item>,
                                       rest: bytes)
    requires Underway(job, st) && Filled(job, st) && TrueSoFar(st, m) && Deliverable(job, m)
    requires AllSendable(job, m, items) && InTurn(job, st, m, items) && After(job, st, m, items).outstanding == {}
    requires pos <= |stream| && stream[pos..] == Traffic(job, m, items) + rest
    ensures job.Startable() && Run(job, st, stream, pos).outcome == Got(m)
    decreases |items|
  {
    hide Underway, Filled, Run, TrueSoFar, Deliverable, Advance, Wire, Ignored;
    UnderwayStartable(job, st);
    if |st.pieces| >= job.Count() {
      assert |m| == job.size by { SizeOf(job, m); }
      CompleteIsTrue(job, st, stream, pos, m);
    } else if items == [] {
      WaitingIsOwed(job, st);
    } else {
      var it, more := items[0], items[1..];
      assert it in items;
      var tail := Traffic(job, m, more) + rest;
      assert Traffic(job, m, items) + rest == Wire(m, it) + tail;
      var next := ItemRead(job, st, stream, pos, m, it, tail);
      AdvanceKeeps(job, st, m, it);
      AnsweredRun(job, Advance(job, st, m, it), stream, next, m, more, rest);
    }
  }

  lemma SizeOf(job: Job, m: bytes)
    requires Deliverable(job, m)
    ensures |m| == job.size
  {
  }

  function Answers(items: seq<Item>): nat {
    if items == [] then 0 else (if items[0].Answer? then 1 else 0) + Answers(items[1..])
  }

  lemma {:induction false} AnswersCount(job: Job, st: Session, m: bytes, items: seq<Item>)
    requires Underway(job, st) && Filled(job, st) && TrueSoFar(st, m) && Deliverable(job, m)
    requires AllSendable(job, m, items) && InTurn(job, st, m, items)
    ensures var t := After(job, st, m, items);
            Underway(job, t) && Filled(job, t) && |t.pieces| == |st.pieces| + Answers(items)
    decreases |items|
  {
    hide Underway, Filled, TrueSoFar, Deliverable, Advance, Ignored;
    if items != [] {
      assert items[0] in items;
      AdvanceKeeps(job, st, m, items[0]);
      AnswersCount(job, Advance(job, st, m, items[0]), m, items[1..]);
    }
  }

  /** A peer that serves m and answers as many requests as there are pieces, each while it is under way, in any order
      and with other traffic in between, gives a download that returns m; nothing behind the last answer matters. */
  lemma AnsweredDownload(cfg: Config, ext: nat, requested: Option<int>, m: bytes, items: seq<Item>, rest: bytes)
    requires 1 <= ext <= 255
    requires var job := Job(cfg, |m|, PipelineLimit(cfg, requested));
             && job.Startable() && Deliverable(job, m) && AllSendable(job, m, items)
             && InTurn(job, Start(job, ext), m, items) && Answers(items) == job.Count()
    ensures var job := Job(cfg, |m|, PipelineLimit(cfg, requested));
            Download(cfg, |m|, ext, requested, Traffic(job, m, items) + rest).outcome == Got(m)
  {
    var job := Job(cfg, |m|, PipelineLimit(cfg, requested));
    StartUnderway(cfg, |m|, ext, requested);
    FillUnderway(job, Session(map[], {}, 0, ext, [], []));
    var stream := Traffic(job, m, items) + rest;
    assert stream[0..] == stream;
    AnswersCount(job, Start(job, ext), m, items);
    CompleteHasAll(job, After(job, Start(job, ext), m, items));
    hide Underway, Filled, Run, Fill, InTurn, Deliverable, After, Answers;
    AnsweredRun(job, Start(job, ext), stream, 0, m, items, rest);
  }

  // ---- The orders a peer can choose ----

  /** The session never leaves a peer without a choice: after any answers in turn, short of the number of pieces, some
      request is under way, and answering any of them is in turn again. */
  lemma AnyNextAnswer(job: Job, st: Session, m: bytes, items: seq<Item>, p: nat)
    requires Underway(job, st) && Filled(job, st) && TrueSoFar(st, m) && Deliverable(job, m)
    requires AllSendable(job, m, items) && InTurn(job, st, m, items)
    ensures |st.pieces| + Answers(items) < job.Count() ==> After(job, st, m, items).outstanding != {}
    ensures p in After(job, st, m, items).outstanding ==>
              AllSendable(job, m, items + [Answer(p)]) && InTurn(job, st, m, items + [Answer(p)])
  {
    hide *;
    AnswersCount(job, st, m, items);
    var t := After(job, st, m, items);
    if |t.pieces| < job.Count() { WaitingIsOwed(job, t); }
    if p in t.outstanding {
      OutstandingInRange(job, t, p);
      AnswerSendable(job, m, p);
      AppendTurn(job, st, m, items, p);
    }
  }

  lemma AnswerSendable(job: Job, m: bytes, p: nat)
    requires Deliverable(job, m) && p < job.Count()
    ensures Sendable(job, m, Answer(p))
  {
    assert Carriable(job, m, p);
  }

  lemma OutstandingInRange(job: Job, st: Session, p: nat)
    requires Underway(job, st) && p in st.outstanding
    ensures p < job.Count()
  {
    assert p in Below(st.next);
  }

  lemma {:induction false} AppendTurn(job: Job, st: Session, m: bytes, items: seq<Item>, p: nat)
    requires AllSendable(job, m, items) && InTurn(job, st, m, items) && Sendable(job, m, Answer(p))
    requires p in After(job, st, m, items).outstanding
    ensures AllSendable(job, m, items + [Answer(p)]) && InTurn(job, st, m, items + [Answer(p)])
    decreases |items|
  {
    hide Advance;
    var r := items + [Answer(p)];
    if items == [] {
      assert r[1..] == [];
    } else {
      assert items[0] in items;
      AppendTurn(job, Advance(job, st, m, items[0]), m, items[1..], p);
      assert r[0] == items[0] && r[1..] == items[1..] + [Answer(p)];
    }
  }

  // ---- The limits ----

  /** The configured message size leaves room for every piece, as long as its numbers are not absurdly long. */
  lemma DeliverableWithin(job: Job, m: bytes)
    requires |m| == job.size && |D.NatStr(|m|)| <= 400
    requires job.cfg.maxMessage >= BLOCK + 1024 && job.cfg.lim.maxDepth >= 1 && job.cfg.lim.maxItems >= 7
             && job.cfg.lim.maxString >= 10
    ensures Deliverable(job, m)
  {
    LengthFieldRange();
    forall p: nat | p < job.Count() ensures Carriable(job, m, p) {
      SliceSize(m, p);
      CountBounds(|m|, p);
      P.NatStrGrows(p, |m|);
      HeaderSize(p, |m|);
      HeaderFits(p, |m|, job.cfg.lim);
      hide DataHeader, Slice, B.Encode, B.Fits, Pow2;
      assert |DataBody(m, p)| == 2 + P.Size(DataHeader(p, |m|)) + |Slice(m, p)|;
    }
  }

  lemma SliceSize(m: bytes, p: nat)
    requires p < PieceCount(|m|)
    ensures p * BLOCK <= |m| && |Slice(m, p)| == PieceSize(|m|, p)
  {
    CountBounds(|m|, p);
  }

  /** The same limits admit every request and reject of the peer. */
  lemma NoteWithin(job: Job, m: bytes, kind: nat, p: nat)
    requires |m| == job.size && |D.NatStr(|m|)| <= 400 && p < job.Count() && (kind == 0 || kind == 2)
    requires job.cfg.maxMessage >= BLOCK + 1024
    requires job.cfg.lim.maxDepth >= 1 && job.cfg.lim.maxItems >= 5 && job.cfg.lim.maxString >= 8
    ensures B.Fits(NoteHeader(kind, p), job.cfg.lim, 0, 0) && Framable(job, NoteBody(kind, p))
  {
    LengthFieldRange();
    CountBounds(|m|, p);
    P.NatStrGrows(p, |m|);
    NoteSize(kind, p);
    NoteFits(kind, p, job.cfg.lim);
    hide NoteHeader, B.Encode, B.Fits, Pow2;
    assert |NoteBody(kind, p)| == 2 + P.Size(NoteHeader(kind, p));
  }

  lemma NoteSize(kind: nat, p: nat)
    requires kind < 10
    ensures P.Size(NoteHeader(kind, p)) == 24 + |D.NatStr(p)|
  {
    var a, b := Ascii("msg_type"), Ascii("piece");
    assert |a| == 8 && |b| == 5;
    var none: map<bytes, B.Value> := map[];
    P.EmptyDictSize();
    P.EntrySize(none, a, B.Int(kind));
    P.EntrySize(none[a := B.Int(kind)], b, B.Int(p));
    assert map[a := B.Int(kind), b := B.Int(p)] == none[a := B.Int(kind)][b := B.Int(p)];
    hide B.Encode, B.EncodeStr;
    KeyLengths(a, b, Ascii("total_size"));
    P.IntSize(kind);
    P.IntSize(p);
    assert |D.NatStr(kind)| == 1;
  }

  lemma NoteFits(kind: nat, p: nat, lim: B.Limits)
    requires lim.maxDepth >= 1 && lim.maxItems >= 5 && lim.maxString >= 8
    ensures B.Fits(NoteHeader(kind, p), lim, 0, 0)
  {
    var h := NoteHeader(kind, p);
    var a, b := Ascii("msg_type"), Ascii("piece");
    assert |a| == 8 && |b| == 5;
    assert h.entries.Keys == {a, b};
    BencodeItems(h, a, b);
  }

  lemma LengthFieldRange()
    ensures Pow2(32) == 4294967296
  {
    assert Pow2(8) == 256;
    assert Pow2(16) == 65536;
    assert Pow2(24) == 16777216;
  }

  lemma HeaderSize(p: nat, size: nat)
    ensures P.Size(DataHeader(p, size)) == 39 + |D.NatStr(p)| + |D.NatStr(size)|
  {
    var a, b, c := Ascii("msg_type"), Ascii("piece"), Ascii("total_size");
    assert |a| == 8 && |b| == 5 && |c| == 10;
    var none: map<bytes, B.Value> := map[];
    P.EmptyDictSize();
    P.EntrySize(none, a, B.Int(1));
    P.EntrySize(none[a := B.Int(1)], b, B.Int(p));
    P.EntrySize(none[a := B.Int(1)][b := B.Int(p)], c, B.Int(size));
    assert map[a := B.Int(1), b := B.Int(p)] == none[a := B.Int(1)][b := B.Int(p)];
    hide B.Encode, B.EncodeStr;
    KeyLengths(a, b, c);
    P.IntSize(1);
    P.IntSize(p);
    P.IntSize(size);
    assert |D.NatStr(1)| == 1;
  }

  lemma KeyLengths(a: bytes, b: bytes, c: bytes)
    requires |a| == 8 && |b| == 5 && |c| == 10
    ensures |B.EncodeStr(a)| == 10 && |B.EncodeStr(b)| == 7 && |B.EncodeStr(c)| == 13
  {
    assert D.NatStr(10) == D.NatStr(1) + [D.Digit(0)];
  }

  lemma HeaderFits(p: nat, size: nat, lim: B.Limits)
    requires lim.maxDepth >= 1 && lim.maxItems >= 7 && lim.maxString >= 10
    ensures B.Fits(DataHeader(p, size), lim, 0, 0)
  {
    var h := DataHeader(p, size);
    var a, b, c := Ascii("msg_type"), Ascii("piece"), Ascii("total_size");
    assert |a| == 8 && |b| == 5 && |c| == 10;
    assert h.entries.Keys == {a, b, c};
    BP.ItemsUnderPick(h, {a, b, c}, a);
    assert {a, b, c} - {a} == {b, c};
    BP.ItemsUnderPick(h, {b, c}, b);
    assert {b, c} - {b} == {c};
    BP.ItemsUnderPick(h, {c}, c);
    assert {c} - {c} == {};
  }
}

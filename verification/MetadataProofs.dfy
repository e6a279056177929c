/** What a metadata session guarantees, whatever the peer sends. */
module MetadataProofs {
  import opened Wrappers
  import opened Bytes
  import B = Bencode
  import BC = BencodeCanonical
  import BP = BencodeProofs
  import opened Metadata
  import opened Sets

  /** {0, ..., n - 1} */
  ghost function Below(n: int): (r: set<nat>)
    ensures forall i: nat :: i in r <==> i < n
  {
    if n <= 0 then {} else Below(n - 1) + {n - 1}
  }

  lemma {:induction false} BelowSize(n: nat)
    ensures |Below(n)| == n
  {
    if n > 0 {
      BelowSize(n - 1);
    }
  }

  /** The pieces requested so far, in the order of the requests. */
  function Requested(sent: seq<Sent>): seq<nat> {
    if sent == [] then []
    else
      var n := |sent| - 1;
      Requested(sent[..n]) + if sent[n].Request? then [sent[n].piece] else []
  }

  /** 0, 1, ..., n - 1 */
  function UpTo(n: nat): (s: seq<nat>)
    ensures |s| == n && forall i :: 0 <= i < n ==> s[i] == i
  {
    seq(n, i => i)
  }

  lemma RequestedAppend(sent: seq<Sent>, m: Sent)
    ensures Requested(sent + [m]) == Requested(sent) + if m.Request? then [m.piece] else []
  {
    assert (sent + [m])[..|sent|] == sent;
  }

  // ---- The pipeline invariant ----

  /** What holds between any two steps of a session. */
  ghost predicate Underway(job: Job, st: Session) {
    job.limit >= 1 && job.Startable() && 1 <= st.ext <= 255
    && Accounted(job, st) && InOrder(st) && Assembled(job, st)
  }

  /** Requested pieces are either here or under way, and not too many are under way. */
  ghost predicate Accounted(job: Job, st: Session) {
    && 0 <= st.next <= job.Count()
    && st.pieces.Keys !! st.outstanding
    && st.pieces.Keys + st.outstanding == Below(st.next)
    && |st.outstanding| <= job.limit
  }

  /** Each piece so far was requested once, in ascending order, with a valid extension number. */
  ghost predicate InOrder(st: Session) {
    && Requested(st.sent) == UpTo(st.next)
    && (forall m :: m in st.sent && m.Request? ==> 1 <= m.ext <= 255)
  }

  /** The pieces here have their sizes and are exactly what the accepted data said. */
  ghost predicate Assembled(job: Job, st: Session) {
    && (forall i :: i in st.pieces ==> |st.pieces[i]| == PieceSize(job.size, i))
    && (forall e :: e in st.log ==> e.0 in st.pieces && st.pieces[e.0] == e.1)
    && (forall i :: i in st.pieces ==> (i, st.pieces[i]) in st.log)
  }

  /** As many requests are under way as may be, or all pieces have been requested. */
  ghost predicate Filled(job: Job, st: Session) {
    st.next == job.Count() || |st.outstanding| == job.limit
  }

  lemma RequestNextUnderway(job: Job, st: Session)
    requires Underway(job, st) && st.next < job.Count() && |st.outstanding| < job.limit
    ensures Underway(job, RequestNext(st))
  {
    RequestAccounted(job, st);
    RequestInOrder(st);
  }

  lemma RequestAccounted(job: Job, st: Session)
    requires Accounted(job, st) && st.next < job.Count() && |st.outstanding| < job.limit
    ensures Accounted(job, RequestNext(st))
  {
    hide Below, PieceCount;
    OneMoreOut(st.pieces.Keys, st.outstanding, st.next);
  }

  lemma OneMoreOut(here: set<nat>, out: set<nat>, n: nat)
    requires here !! out && here + out == Below(n)
    ensures here !! out + {n} && here + (out + {n}) == Below(n + 1) && |out + {n}| == |out| + 1
  {
    assert n !in Below(n);
    assert n !in here + out;
  }

  lemma OneMoreHere(here: set<nat>, out: set<nat>, x: nat, n: nat)
    requires here !! out && here + out == Below(n) && x in out
    ensures (here + {x}) !! (out - {x}) && (here + {x}) + (out - {x}) == Below(n) && |out - {x}| == |out| - 1
  {
  }

  lemma RequestInOrder(st: Session)
    requires InOrder(st) && 1 <= st.ext <= 255
    ensures InOrder(RequestNext(st))
  {
    RequestedAppend(st.sent, Request(st.ext, st.next));
    assert UpTo(st.next + 1) == UpTo(st.next) + [st.next];
  }

  lemma {:induction false} FillUnderway(job: Job, st: Session)
    requires Underway(job, st)
    ensures Underway(job, Fill(job, st)) && Filled(job, Fill(job, st))
    ensures Fill(job, st).pieces == st.pieces && Fill(job, st).log == st.log
    decreases job.Count() - st.next
  {
    if st.next < job.Count() && |st.outstanding| < job.limit {
      RequestNextUnderway(job, st);
      FillUnderway(job, RequestNext(st));
    }
  }

  lemma StartUnderway(cfg: Config, size: int, ext: nat, requested: Option<int>)
    requires 1 <= ext <= 255
    ensures var job := Job(cfg, size, PipelineLimit(cfg, requested));
            job.Startable() ==> Underway(job, Start(job, ext)) && Filled(job, Start(job, ext))
  {
    var job := Job(cfg, size, PipelineLimit(cfg, requested));
    if job.Startable() {
      FillUnderway(job, Session(map[], {}, 0, ext, [], []));
    }
  }

  lemma AcceptUnderway(job: Job, st: Session, piece: nat, data: bytes)
    requires Underway(job, st) && piece in st.outstanding && |data| == PieceSize(job.size, piece)
    ensures Underway(job, Accept(st, piece, data))
  {
    hide Below, PieceCount, PieceSize, Requested, Assembled;
    assert piece !in st.pieces.Keys;
    AcceptAssembled(job, st, piece, data);
    AcceptAccounted(job, st, piece, data);
    hide Accounted;
  }

  lemma AcceptAccounted(job: Job, st: Session, piece: nat, data: bytes)
    requires Accounted(job, st) && piece in st.outstanding
    ensures Accounted(job, Accept(st, piece, data))
  {
    hide Below, PieceCount;
    assert Accept(st, piece, data).pieces.Keys == st.pieces.Keys + {piece};
    OneMoreHere(st.pieces.Keys, st.outstanding, piece, st.next);
  }

  lemma AcceptAssembled(job: Job, st: Session, piece: nat, data: bytes)
    requires Assembled(job, st) && piece !in st.pieces && |data| == PieceSize(job.size, piece)
    ensures Assembled(job, Accept(st, piece, data))
  {
    hide PieceSize;
    var st' := Accept(st, piece, data);
    assert forall e :: e in st'.log <==> e in st.log || e == (piece, data);
  }

  lemma HandleUnderway(job: Job, st: Session, kind: nat, piece: nat, data: bytes)
    requires Underway(job, st) && Filled(job, st) && (kind == 1 ==> |data| == PieceSize(job.size, piece)) && kind <= 2
    ensures var r := Handle(job, st, kind, piece, data);
            r.Continue? ==> Underway(job, r.st) && Filled(job, r.st)
    ensures var r := Handle(job, st, kind, piece, data);
            r.Fail? ==> r.failure != LengthMismatch
  {
    if kind == 0 {
      RequestedAppend(st.sent, Refusal(piece));
    } else if kind == 1 && piece in st.outstanding && piece !in st.pieces {
      AcceptUnderway(job, st, piece, data);
      FillUnderway(job, Accept(st, piece, data));
    }
  }

  lemma NewNumberUnderway(job: Job, st: Session, id: nat)
    requires Underway(job, st) && 1 <= id <= 255
    ensures Underway(job, st.(ext := id)) && (Filled(job, st) ==> Filled(job, st.(ext := id)))
  {
    hide Requested, Below, PieceSize, PieceCount;
  }

  lemma StepUnderway(job: Job, st: Session, body: bytes)
    requires Underway(job, st) && Filled(job, st) && body != []
    ensures Step(job, st, body).Continue? ==>
            Underway(job, Step(job, st, body).st) && Filled(job, Step(job, st, body).st)
    ensures Step(job, st, body).Fail? ==> Step(job, st, body).failure != LengthMismatch
  {
    hide Underway, Handle, ParseMessage, ParseExtension, Filled;
    if body[0] == EXTENDED && |body| >= 2 && body[1] == LOCAL_ID {
      var m := ParseMessage(body[2..], job.size, job.Count(), job.cfg.lim);
      if m.MessageOk? { HandleUnderway(job, st, m.kind, m.piece, m.data); }
    } else if body[0] == EXTENDED && |body| >= 2 && body[1] == 0 {
      var x := ParseExtension(body[2..], job.cfg);
      NumberRange(body[2..], job.cfg);
      if x.ExtensionOk? && x.utMetadata.Some? && x.utMetadata.value != 0 {
        NewNumberUnderway(job, st, x.utMetadata.value);
      }
    }
  }

  /** A handshake only ever yields an extension number of one byte. */
  lemma NumberRange(payload: bytes, cfg: Config)
    ensures var x := ParseExtension(payload, cfg);
            x.ExtensionOk? && x.utMetadata.Some? ==> x.utMetadata.value <= 255
  {
    hide B.Decode, SizeFieldOk;
  }

  /** While a session waits for the peer, some request is under way: an incomplete download never
      stalls on its own account. */
  lemma WaitingIsOwed(job: Job, st: Session)
    requires Underway(job, st) && Filled(job, st) && |st.pieces| < job.Count()
    ensures st.outstanding != {}
  {
    assert |st.pieces| == |st.pieces.Keys|;
    BelowSize(st.next);
    assert st.outstanding == {} ==> st.pieces.Keys == Below(st.next);
  }

  /** Data for a piece under way is always accepted and completes one more piece. */
  lemma DataMakesProgress(job: Job, st: Session, piece: nat, data: bytes)
    requires Underway(job, st) && piece in st.outstanding
    ensures var r := Handle(job, st, 1, piece, data);
            r.Continue? && |r.st.pieces| == |st.pieces| + 1 && piece in r.st.pieces && r.st.pieces[piece] == data
  {
    hide InOrder, Assembled, Below, Fill;
    var st' := Accept(st, piece, data);
    OneMorePiece(st.pieces, piece, data);
    FillPieces(job, st');
  }

  lemma OneMorePiece(pieces: map<nat, bytes>, piece: nat, data: bytes)
    requires piece !in pieces
    ensures |pieces[piece := data]| == |pieces| + 1
  {
    assert pieces[piece := data].Keys == pieces.Keys + {piece};
  }

  lemma {:induction false} FillPieces(job: Job, st: Session)
    ensures Fill(job, st).pieces == st.pieces && Fill(job, st).log == st.log
    decreases job.Count() - st.next
  {
    if st.next < job.Count() && |st.outstanding| < job.limit {
      FillPieces(job, RequestNext(st));
    }
  }

  // ---- The assembled bytes ----

  /** Piece p of the metadata m. */
  function Slice(m: bytes, p: nat): bytes
    requires p * BLOCK <= |m|
  {
    var end := (p + 1) * BLOCK;
    if end < |m| then m[p * BLOCK..end] else m[p * BLOCK..]
  }

  lemma CountBounds(size: int, p: nat)
    requires p < PieceCount(size)
    ensures 0 <= p * BLOCK < size
    ensures p + 1 < PieceCount(size) ==> (p + 1) * BLOCK < size
    ensures p + 1 == PieceCount(size) ==> (p + 1) * BLOCK >= size
  {
  }

  /** The joined pieces are as long as they should be, and piece p lies where it should. */
  lemma {:induction false} JoinSlices(pieces: map<nat, bytes>, size: int, n: nat)
    requires n <= PieceCount(size)
    requires forall i: nat :: i < n ==> i in pieces && |pieces[i]| == PieceSize(size, i)
    ensures |Join(pieces, n)| == if n * BLOCK < size then n * BLOCK else if n == 0 then 0 else size
    ensures forall p: nat :: p < n ==> p * BLOCK <= |Join(pieces, n)| && Slice(Join(pieces, n), p) == pieces[p]
    decreases n
  {
    if n > 0 {
      CountBounds(size, n - 1);
      JoinSlices(pieces, size, n - 1);
      var before, last := Join(pieces, n - 1), pieces[n - 1];
      assert |before| == (n - 1) * BLOCK;
      forall p: nat | p < n
        ensures p * BLOCK <= |before + last| && Slice(before + last, p) == pieces[p]
      {
        if p < n - 1 {
          assert (p + 1) * BLOCK <= |before|;
          assert (before + last)[p * BLOCK..(p + 1) * BLOCK] == before[p * BLOCK..(p + 1) * BLOCK];
          assert Slice(before, p) == before[p * BLOCK..(p + 1) * BLOCK];
        } else {
          assert (before + last)[p * BLOCK..] == last;
          if (p + 1) * BLOCK < |before + last| { assert false; }
        }
      }
    }
  }

  /** Two byte strings of one size with the same pieces are the same. */
  lemma {:induction false} SlicesDetermine(a: bytes, b: bytes)
    requires |a| == |b|
    requires forall p: nat :: p < PieceCount(|a|) ==> p * BLOCK <= |a| && Slice(a, p) == Slice(b, p)
    ensures a == b
  {
    forall i | 0 <= i < |a|
      ensures a[i] == b[i]
    {
      var p: nat := i / BLOCK;
      assert p * BLOCK <= i < (p + 1) * BLOCK;
      assert p < PieceCount(|a|);
      assert Slice(a, p)[i - p * BLOCK] == a[i] && Slice(b, p)[i - p * BLOCK] == b[i];
    }
  }

  lemma CompleteHasAll(job: Job, st: Session)
    requires Underway(job, st) && |st.pieces| >= job.Count()
    ensures st.pieces.Keys == Below(job.Count()) && st.next == job.Count() && st.outstanding == {}
  {
    BelowSize(job.Count());
    BelowSize(st.next);
    assert |st.pieces| == |st.pieces.Keys|;
    SubsetSize(st.pieces.Keys, Below(st.next));
  }

  /** Data for piece p was accepted. */
  ghost predicate Logged(log: seq<(nat, bytes)>, p: nat) {
    exists d :: (p, d) in log
  }

  /** What a session that ends has to show for itself. */
  ghost predicate Sound(job: Job, e: Ending) {
    && Underway(job, e.st)
    && e.outcome != Failed(LengthMismatch)
    && (e.outcome.Got? ==>
          && |e.outcome.raw| == job.size
          && Requested(e.st.sent) == UpTo(job.Count())
          && (forall p: nat :: p < job.Count() ==> Logged(e.st.log, p))
          && (forall m :: m in e.st.log ==>
                m.0 < job.Count() && m.0 * BLOCK <= job.size && m.1 == Slice(e.outcome.raw, m.0)))
  }

  lemma FinishSound(job: Job, st: Session)
    requires Underway(job, st) && |st.pieces| >= job.Count()
    ensures Sound(job, Ending(Finish(job, st), st))
  {
    CompleteHasAll(job, st);
    PiecesReady(job, st);
    var n: nat := job.Count();
    JoinSlices(st.pieces, job.size, n);
    CountBounds(job.size, n - 1);
    var raw := Join(st.pieces, n);
    forall p: nat | p < n
      ensures Logged(st.log, p)
    {
      assert p in st.pieces.Keys && (p, st.pieces[p]) in st.log;
    }
    forall m | m in st.log
      ensures m.0 < n && m.0 * BLOCK <= job.size && m.1 == Slice(raw, m.0)
    {
      assert m.0 in st.pieces.Keys;
    }
  }

  lemma PiecesReady(job: Job, st: Session)
    requires Underway(job, st) && st.pieces.Keys == Below(job.Count())
    ensures forall i: nat :: i < job.Count() ==> i in st.pieces && |st.pieces[i]| == PieceSize(job.size, i)
  {
    forall i: nat | i < job.Count()
      ensures i in st.pieces && |st.pieces[i]| == PieceSize(job.size, i)
    {
      assert i in Below(job.Count());
    }
  }

  lemma {:induction false} RunSound(job: Job, st: Session, stream: bytes, pos: nat)
    requires Underway(job, st) && Filled(job, st) && pos <= |stream|
    ensures Sound(job, Run(job, st, stream, pos))
    decreases |stream| - pos
  {
    hide Underway, Filled, Step, FromBytes, Requested;
    assert job.Startable() by { UnderwayStartable(job, st); }
    if |st.pieces| >= job.Count() {
      FinishSound(job, st);
    } else if pos + 4 <= |stream| {
      var length := FromBytes(stream[pos..pos + 4]);
      if length == 0 {
        RunSound(job, st, stream, pos + 4);
      } else if length <= job.cfg.maxMessage && pos + 4 + length <= |stream| {
        var body := stream[pos + 4..pos + 4 + length];
        StepUnderway(job, st, body);
        if Step(job, st, body).Continue? {
          RunSound(job, Step(job, st, body).st, stream, pos + 4 + length);
        }
      }
    }
  }

  lemma UnderwayStartable(job: Job, st: Session)
    requires Underway(job, st)
    ensures job.Startable()
  {
  }

  // ---- The theorems ----

  /** Whatever the peer sends: the final length check never fails, a returned value has the announced size, every
      piece was requested exactly once in ascending order, and the value agrees with every data message
      that was accepted, of which there is at least one for every piece. */
  lemma DownloadSound(cfg: Config, size: int, ext: nat, requested: Option<int>, stream: bytes)
    requires 1 <= ext <= 255
    ensures var e := Download(cfg, size, ext, requested, stream);
            var job := Job(cfg, size, PipelineLimit(cfg, requested));
            if job.Startable() then Sound(job, e) else e.outcome == Failed(InvalidSize)
  {
    var job := Job(cfg, size, PipelineLimit(cfg, requested));
    StartUnderway(cfg, size, ext, requested);
    if job.Startable() { RunSound(job, Start(job, ext), stream, 0); }
  }

  /** The data messages a session accepted carry the true pieces of m. */
  ghost predicate Honest(e: Ending, m: bytes) {
    forall x :: x in e.st.log ==> x.0 * BLOCK <= |m| && x.1 == Slice(m, x.0)
  }

  /** A session whose accepted data is true returns exactly the true metadata, whatever the order, the
      repetitions and the other messages in between. */
  lemma HonestDownload(cfg: Config, size: int, ext: nat, requested: Option<int>, stream: bytes, m: bytes)
    requires 1 <= ext <= 255 && |m| == size
    requires var e := Download(cfg, size, ext, requested, stream); e.outcome.Got? && Honest(e, m)
    ensures Download(cfg, size, ext, requested, stream).outcome == Got(m)
  {
    DownloadSound(cfg, size, ext, requested, stream);
    hide Download, Run;
    var e := Download(cfg, size, ext, requested, stream);
    forall p: nat | p < PieceCount(size)
      ensures p * BLOCK <= |m| && Slice(e.outcome.raw, p) == Slice(m, p)
    {
      assert Logged(e.st.log, p);
      var d :| (p, d) in e.st.log;
    }
    SlicesDetermine(e.outcome.raw, m);
  }

  /** Two sessions with different peers that accept data of the same metadata return the same bytes. */
  lemma ArrivalOrderIrrelevant(cfg: Config, size: int, ext: nat, ext': nat, requested: Option<int>,
                               requested': Option<int>,
                               stream: bytes, stream': bytes, m: bytes)
    requires 1 <= ext <= 255 && 1 <= ext' <= 255 && |m| == size
    requires var e := Download(cfg, size, ext, requested, stream); e.outcome.Got? && Honest(e, m)
    requires var e := Download(cfg, size, ext', requested', stream'); e.outcome.Got? && Honest(e, m)
    ensures Download(cfg, size, ext, requested, stream).outcome
            == Download(cfg, size, ext', requested', stream').outcome
  {
    HonestDownload(cfg, size, ext, requested, stream, m);
    HonestDownload(cfg, size, ext', requested', stream', m);
  }

  /** Framing: a header within the limits is read back exactly, and everything behind it is the payload. */
  lemma FramingIsExact(header: B.Value, payload: bytes, size: int, count: int, lim: B.Limits)
    requires B.Fits(header, lim, 0, 0)
    ensures ParseMessage(B.Encode(header) + payload, size, count, lim) == Interpret(header, payload, size, count)
  {
    BC.DecodePrefixOfEncoding(header, payload, lim, false);
    assert (B.Encode(header) + payload)[|B.Encode(header)|..] == payload;
  }

  /** A request that this program builds is one that it understands: message type 0 for that piece. */
  lemma RequestReadsBack(piece: nat, size: int, count: int, lim: B.Limits)
    requires piece < count && lim.maxDepth >= 1 && lim.maxItems >= 5 && lim.maxString >= 8
    ensures ParseMessage(B.Encode(RequestHeader(piece)), size, count, lim) == MessageOk(0, piece, [])
  {
    var h := RequestHeader(piece);
    var a, b := Ascii("msg_type"), Ascii("piece");
    assert |a| == 8 && |b| == 5;
    assert h.entries.Keys == {a, b};
    BencodeItems(h, a, b);
    FramingIsExact(h, [], size, count, lim);
    assert B.Encode(h) + [] == B.Encode(h);
  }

  lemma BencodeItems(v: B.Value, a: bytes, b: bytes)
    requires v.Dict? && a != b && v.entries.Keys == {a, b} && v.entries[a].Int? && v.entries[b].Int?
    ensures B.Items(v) == 5
  {
    BP.ItemsUnderPick(v, {a, b}, a);
    assert {a, b} - {a} == {b};
    BP.ItemsUnderPick(v, {b}, b);
    assert {b} - {b} == {};
  }
}

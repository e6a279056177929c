/** What each message of the peer means to a metadata session, read off its bytes and dictionaries, and which extension
    number every request of a whole session carries. */
module MetadataMessages {
  import opened Wrappers
  import opened Bytes
  import B = Bencode
  import BC = BencodeCanonical
  import opened Metadata
  import opened MetadataProofs

  // ---- The extension handshake ----

  /** The dictionary advertises number n for `ut_metadata`. */
  predicate Advertises(h: B.Value, n: int) {
    && h.Dict? && Ascii("m") in h.entries && h.entries[Ascii("m")].Dict?
    && Ascii("ut_metadata") in h.entries[Ascii("m")].entries
    && h.entries[Ascii("m")].entries[Ascii("ut_metadata")] == B.Int(n)
    && 0 <= n <= 255
  }

  /** The dictionary states a size that is not a number from 1 to the configured maximum. */
  predicate SizeWrong(h: B.Value, cfg: Config) {
    && h.Dict? && Ascii("metadata_size") in h.entries
    && !(h.entries[Ascii("metadata_size")].Int? && 1 <= h.entries[Ascii("metadata_size")].i <= cfg.maxMetadata)
  }

  /** Which payloads are accepted, and which number they advertise. */
  lemma HandshakeExactly(payload: bytes, cfg: Config)
    ensures var r, x := B.Decode(payload, cfg.lim, false), ParseExtension(payload, cfg);
            && (x.ExtensionOk? <==> r.Ok? && r.value.Dict? && !SizeWrong(r.value, cfg))
            && (x.ExtensionOk? ==> forall n: nat :: x.utMetadata == Some(n) <==> Advertises(r.value, n))
  {
    hide B.Decode;
  }

  /** The same, from the dictionary that the peer wrote. */
  lemma HandshakeReadsBack(h: B.Value, cfg: Config)
    requires h.Dict? && B.Fits(h, cfg.lim, 0, 0)
    ensures var x := ParseExtension(B.Encode(h), cfg);
            && (x.ExtensionOk? <==> !SizeWrong(h, cfg))
            && (x.ExtensionOk? ==> forall n: nat :: x.utMetadata == Some(n) <==> Advertises(h, n))
  {
    BC.RoundTrip(h, cfg.lim, false);
    HandshakeExactly(B.Encode(h), cfg);
    hide B.Decode, B.Encode, B.Fits, ParseExtension;
  }

  // ---- Metadata messages ----

  predicate HasInt(h: B.Value, k: string, i: int) {
    h.Dict? && Ascii(k) in h.entries && h.entries[Ascii(k)] == B.Int(i)
  }

  /** The header names type and piece; data states the right total and is followed by as many bytes as are left of the
      metadata, at most a block; requests and rejects are followed by nothing. */
  predicate Proper(h: B.Value, trailing: bytes, size: int, count: int, kind: nat, piece: nat) {
    && HasInt(h, "msg_type", kind) && kind <= 2 && HasInt(h, "piece", piece) && piece < count
    && if kind != 1 then trailing == []
       else
         && HasInt(h, "total_size", size)
         && |trailing| <= 16384
         && (if size - 16384 * piece > 16384 then |trailing| == 16384 else |trailing| == size - 16384 * piece)
  }

  /** A message is accepted if and only if it is proper, as what its header says. */
  lemma MessageExactly(payload: bytes, size: int, count: int, lim: B.Limits, kind: nat, piece: nat, data: bytes)
    ensures var r := B.DecodePrefix(payload, lim, false);
            ParseMessage(payload, size, count, lim) == MessageOk(kind, piece, data) <==>
            && r.Ok? && data == payload[r.pos..]
            && Proper(r.value, data, size, count, kind, piece)
  {
    var r := B.DecodePrefix(payload, lim, false);
    assert r.Ok? ==> r.pos <= |payload|;
    hide B.DecodePrefix;
    if r.Ok? { InterpretExactly(r.value, payload[r.pos..], size, count, kind, piece, data); }
  }

  lemma InterpretExactly(v: B.Value, trailing: bytes, size: int, count: int, kind: nat, piece: nat, data: bytes)
    ensures Interpret(v, trailing, size, count) == MessageOk(kind, piece, data) <==>
            data == trailing && Proper(v, trailing, size, count, kind, piece)
  {
  }

  /** The message with this header and these bytes behind it. */
  ghost function Wrapped(h: B.Value, trailing: bytes): bytes {
    [20, 1] + (B.Encode(h) + trailing)
  }

  lemma ProperRead(job: Job, h: B.Value, trailing: bytes, kind: nat, piece: nat)
    requires B.Fits(h, job.cfg.lim, 0, 0) && Proper(h, trailing, job.size, job.Count(), kind, piece)
    ensures ParseMessage(Wrapped(h, trailing)[2..], job.size, job.Count(), job.cfg.lim)
            == MessageOk(kind, piece, trailing)
  {
    hide B.Encode, B.Fits, B.DecodePrefix, ParseMessage, Proper;
    assert Wrapped(h, trailing)[2..] == B.Encode(h) + trailing;
    BC.DecodePrefixOfEncoding(h, trailing, job.cfg.lim, false);
    assert (B.Encode(h) + trailing)[|B.Encode(h)|..] == trailing;
    MessageExactly(B.Encode(h) + trailing, job.size, job.Count(), job.cfg.lim, kind, piece, trailing);
  }

  /** A request of the peer is refused, and changes nothing else. */
  lemma RequestIsRefused(job: Job, st: Session, h: B.Value, piece: nat)
    requires B.Fits(h, job.cfg.lim, 0, 0) && Proper(h, [], job.size, job.Count(), 0, piece)
    ensures Step(job, st, Wrapped(h, [])) == Continue(st.(sent := st.sent + [Refusal(piece)]))
  {
    ProperRead(job, h, [], 0, piece);
    hide B.Encode, B.Fits, ParseMessage, Proper;
  }

  /** A reject ends the session if and only if the piece is under way, and is ignored otherwise. */
  lemma RejectEnds(job: Job, st: Session, h: B.Value, piece: nat)
    requires B.Fits(h, job.cfg.lim, 0, 0) && Proper(h, [], job.size, job.Count(), 2, piece)
    ensures Step(job, st, Wrapped(h, [])) == if piece in st.outstanding then Fail(Rejected) else Continue(st)
  {
    ProperRead(job, h, [], 2, piece);
    hide B.Encode, B.Fits, ParseMessage, Proper;
  }

  /** Data nobody asked for ends the session, and so does data that differs from what is here; equal data is only
      logged; data for a piece under way is kept under its number, the request is settled, and only requests are
      sent. */
  lemma DataSettles(job: Job, st: Session, h: B.Value, data: bytes, piece: nat)
    requires Underway(job, st)
    requires B.Fits(h, job.cfg.lim, 0, 0) && Proper(h, data, job.size, job.Count(), 1, piece)
    ensures var r := Step(job, st, Wrapped(h, data));
            if piece in st.outstanding then
              && r.Continue? && r.st.pieces == st.pieces[piece := data] && r.st.log == st.log + [(piece, data)]
              && r.st.ext == st.ext && OnlyRequests(st, r.st, st.outstanding - {piece})
            else if piece !in st.pieces then r == Fail(Unsolicited)
            else if st.pieces[piece] != data then r == Fail(Conflict)
            else r == Continue(st.(log := st.log + [(piece, data)]))
  {
    hide B.Encode, B.Fits, ParseMessage, Proper, Underway;
    ProperRead(job, h, data, 1, piece);
    NotBoth(job, st, piece);
    if piece in st.outstanding { FillRequests(job, Accept(st, piece, data)); }
    hide Fill;
  }

  lemma NotBoth(job: Job, st: Session, piece: nat)
    requires Underway(job, st)
    ensures piece in st.outstanding ==> piece !in st.pieces
  {
  }

  /** Between the two states the next pieces in order were requested, with the number in force, and are under way
      now. */
  ghost predicate OnlyRequests(before: Session, after: Session, out: set<nat>) {
    && before.next <= after.next
    && |after.sent| == |before.sent| + (after.next - before.next) && after.sent[..|before.sent|] == before.sent
    && (forall i :: before.next <= i < after.next ==>
          after.sent[|before.sent| + (i - before.next)] == Request(before.ext, i))
    && (forall i :: i in after.outstanding <==> i in out || before.next <= i < after.next)
  }

  lemma {:induction false} FillRequests(job: Job, st: Session)
    ensures var r := Fill(job, st);
            r.pieces == st.pieces && r.log == st.log && r.ext == st.ext && OnlyRequests(st, r, st.outstanding)
    decreases job.Count() - st.next
  {
    if st.next < job.Count() && |st.outstanding| < job.limit {
      var mid := RequestNext(st);
      FillRequests(job, mid);
      var r := Fill(job, st);
      assert r == Fill(job, mid);
      hide Fill;
      assert mid.sent == r.sent[..|mid.sent|];
      assert r.sent[..|st.sent|] == mid.sent[..|st.sent|] == st.sent;
      assert r.sent[|st.sent|] == mid.sent[|st.sent|];
    }
  }

  // ---- The number in force ----

  /** The body is a handshake that advertises number n. */
  ghost predicate Announces(body: bytes, n: int, cfg: Config) {
    && |body| >= 2 && body[0] == 20 && body[1] == 0
    && var r := B.Decode(body[2..], cfg.lim, false);
       r.Ok? && Advertises(r.value, n)
  }

  /** The number that the last of these messages that advertised one advertised, or else the first one. */
  ghost function InForce(ext: nat, bodies: seq<bytes>, cfg: Config): int
    decreases |bodies|
  {
    if bodies == [] then ext
    else
      var last := bodies[|bodies| - 1];
      if exists m :: Announces(last, m, cfg) then var m :| Announces(last, m, cfg); m
      else InForce(ext, bodies[..|bodies| - 1], cfg)
  }

  lemma {:induction false} InForceIsLast(ext: nat, bodies: seq<bytes>, cfg: Config, i: nat, n: int)
    requires i < |bodies| && Announces(bodies[i], n, cfg)
    requires forall j, m :: i < j < |bodies| ==> !Announces(bodies[j], m, cfg)
    ensures InForce(ext, bodies, cfg) == n
    decreases |bodies|
  {
    hide Announces;
    if i == |bodies| - 1 {
      forall m | Announces(bodies[i], m, cfg) ensures m == n { AnnouncesOne(bodies[i], m, n, cfg); }
    } else {
      InForceIsLast(ext, bodies[..|bodies| - 1], cfg, i, n);
    }
  }

  lemma AnnouncesOne(body: bytes, m: int, n: int, cfg: Config)
    requires Announces(body, m, cfg) && Announces(body, n, cfg)
    ensures m == n
  {
  }

  lemma {:induction false} InForceFirst(ext: nat, bodies: seq<bytes>, cfg: Config)
    requires forall b, m :: b in bodies ==> !Announces(b, m, cfg)
    ensures InForce(ext, bodies, cfg) == ext
    decreases |bodies|
  {
    hide Announces;
    if bodies != [] {
      assert bodies[|bodies| - 1] in bodies;
      InForceFirst(ext, bodies[..|bodies| - 1], cfg);
    }
  }

  lemma StepNumber(job: Job, st: Session, body: bytes, n: int)
    requires body != [] && Announces(body, n, job.cfg)
    ensures Step(job, st, body) ==
            if SizeWrong(B.Decode(body[2..], job.cfg.lim, false).value, job.cfg) then Fail(HandshakeInvalid)
            else if n == 0 then Fail(UtMetadataDisabled)
            else Continue(st.(ext := n))
  {
    HandshakeExactly(body[2..], job.cfg);
    hide B.Decode, SizeWrong, ParseExtension, ParseMessage;
  }

  lemma AcceptedAnnounces(body: bytes, cfg: Config)
    requires |body| >= 2 && body[0] == EXTENDED && body[1] == 0
    ensures var x := ParseExtension(body[2..], cfg);
            x.ExtensionOk? && x.utMetadata.Some? ==> Announces(body, x.utMetadata.value, cfg)
  {
    HandshakeExactly(body[2..], cfg);
    hide B.Decode, SizeWrong, ParseExtension;
  }

  lemma StepOther(job: Job, st: Session, body: bytes)
    requires body != [] && (forall n :: !Announces(body, n, job.cfg)) && Step(job, st, body).Continue?
    ensures var st' := Step(job, st, body).st; st'.ext == st.ext && Extended(st, st')
  {
    if |body| >= 2 && body[0] == EXTENDED && body[1] == 0 {
      AcceptedAnnounces(body, job.cfg);
      hide Announces, ParseExtension, ParseMessage;
    } else if |body| >= 2 && body[0] == EXTENDED && body[1] == LOCAL_ID {
      var m := ParseMessage(body[2..], job.size, job.Count(), job.cfg.lim);
      if m.MessageOk? { HandleExtends(job, st, m.kind, m.piece, m.data); }
      hide ParseMessage, Handle;
    }
  }

  /** Something more was sent, requests with the number in force; nothing sent before is lost. */
  ghost predicate Extended(before: Session, after: Session) {
    && |before.sent| <= |after.sent| && after.sent[..|before.sent|] == before.sent
    && forall q :: |before.sent| <= q < |after.sent| && after.sent[q].Request? ==> after.sent[q].ext == after.ext
  }

  lemma HandleExtends(job: Job, st: Session, kind: nat, piece: nat, data: bytes)
    requires Handle(job, st, kind, piece, data).Continue?
    ensures var st' := Handle(job, st, kind, piece, data).st; st'.ext == st.ext && Extended(st, st')
  {
    FillExtends(job, Accept(st, piece, data));
    hide Fill;
  }

  lemma FillExtends(job: Job, st: Session)
    ensures Fill(job, st).ext == st.ext && Extended(st, Fill(job, st))
  {
    FillRequests(job, st);
    hide Fill;
    var r := Fill(job, st);
    forall q | |st.sent| <= q < |r.sent| && r.sent[q].Request? ensures r.sent[q].ext == r.ext {
      var i := st.next + (q - |st.sent|);
      assert r.sent[|st.sent| + (i - st.next)] == Request(st.ext, i);
    }
  }

  // ---- Before the first message ----

  /** The sizes that are refused at once. */
  lemma StartsExactly(cfg: Config, size: int, limit: nat)
    ensures Job(cfg, size, limit).Startable() <==> 0 < size <= cfg.maxMetadata
  {
  }

  /** The peer's wish counts up to the configured pipeline; no wish, or 0, asks for all of it; one request is always
      allowed. */
  lemma LimitExactly(cfg: Config, requested: Option<int>)
    requires cfg.pipeline >= 1
    ensures var n := PipelineLimit(cfg, requested);
            && 1 <= n <= cfg.pipeline
            && (n < cfg.pipeline ==> requested.Some? && requested.value != 0 && requested.value <= n)
            && (requested.Some? && requested.value != 0 && 1 < n ==> n <= requested.value)
  {
  }

  // ---- A whole session ----

  /** The messages of a stream: what is framed as long as lengths are within the limit, without keep-alives. */
  function Bodies(cfg: Config, stream: bytes, pos: nat): (r: seq<bytes>)
    requires pos <= |stream|
    ensures [] !in r
    decreases |stream| - pos
  {
    if pos + 4 > |stream| then []
    else
      var length := FromBytes(stream[pos..pos + 4]);
      if length > cfg.maxMessage || pos + 4 + length > |stream| then []
      else (if length == 0 then [] else [stream[pos + 4..pos + 4 + length]]) + Bodies(cfg, stream, pos + 4 + length)
  }

  /** The states of a session: the first one and the one after every message that it takes. */
  ghost function States(job: Job, st: Session, bodies: seq<bytes>): (r: seq<Session>)
    requires [] !in bodies
    ensures 0 < |r| <= |bodies| + 1 && r[0] == st
    decreases |bodies|
  {
    if bodies == [] || |st.pieces| >= job.Count() then [st]
    else
      assert bodies[0] in bodies;
      match Step(job, st, bodies[0])
      case Fail(_) => [st]
      case Continue(st') => [st] + States(job, st', bodies[1..])
  }

  /** How a session ends: complete, refusing the message that comes after its last state, or without one. */
  ghost predicate EndsIn(job: Job, e: Ending, s: seq<Session>, bodies: seq<bytes>)
    requires job.Startable() && [] !in bodies && 0 < |s| <= |bodies| + 1
  {
    && e.st == s[|s| - 1]
    && if |e.st.pieces| >= job.Count() then e.outcome == Finish(job, e.st)
       else if |s| <= |bodies| then
         assert bodies[|s| - 1] in bodies;
         var r := Step(job, e.st, bodies[|s| - 1]);
         r.Fail? && e.outcome == Failed(r.failure)
       else e.outcome == Failed(Disconnected) || e.outcome == Failed(MessageTooLong)
  }

  /** A session is its states, and ends after the last of them. */
  lemma {:induction false} RunIsStates(job: Job, st: Session, stream: bytes, pos: nat)
    requires job.Startable() && pos <= |stream|
    ensures var bodies := Bodies(job.cfg, stream, pos);
            EndsIn(job, Run(job, st, stream, pos), States(job, st, bodies), bodies)
    decreases |stream| - pos
  {
    hide Step, FromBytes, Finish;
    if |st.pieces| < job.Count() && pos + 4 <= |stream| {
      var length := FromBytes(stream[pos..pos + 4]);
      if length <= job.cfg.maxMessage && pos + 4 + length <= |stream| {
        var body, rest := stream[pos + 4..pos + 4 + length], Bodies(job.cfg, stream, pos + 4 + length);
        if length == 0 {
          assert Bodies(job.cfg, stream, pos) == rest;
          RunIsStates(job, st, stream, pos + 4);
        } else {
          assert Bodies(job.cfg, stream, pos) == [body] + rest;
          assert ([body] + rest)[1..] == rest;
          if Step(job, st, body).Continue? {
            var st' := Step(job, st, body).st;
            RunIsStates(job, st', stream, pos + 4 + length);
            EndsLater(job, Run(job, st', stream, pos + 4 + length), st, st', body, rest);
          }
        }
      }
    }
  }

  lemma EndsLater(job: Job, e: Ending, st: Session, st': Session, body: bytes, rest: seq<bytes>)
    requires job.Startable() && body != [] && [] !in rest && |st.pieces| < job.Count()
    requires Step(job, st, body) == Continue(st') && EndsIn(job, e, States(job, st', rest), rest)
    ensures EndsIn(job, e, States(job, st, [body] + rest), [body] + rest)
  {
    hide Step, Finish;
    var bodies := [body] + rest;
    assert bodies[1..] == rest && bodies[0] == body;
    var s := States(job, st', rest);
    assert States(job, st, bodies) == [st] + s;
    if |s| <= |rest| { assert bodies[|s|] == rest[|s| - 1]; }
  }

  /** The number of every state is the one in force, everything sent stays sent, and every request that a message brings
      about carries the number in force after that message. */
  lemma {:induction false} StatesCarry(job: Job, ext: nat, seen: seq<bytes>, st: Session, bodies: seq<bytes>, i: nat)
    requires [] !in bodies && st.ext == InForce(ext, seen, job.cfg) && i < |States(job, st, bodies)|
    ensures var s := States(job, st, bodies);
            && s[i].ext == InForce(ext, seen + bodies[..i], job.cfg)
            && (i + 1 < |s| ==> Extended(s[i], s[i + 1]))
    decreases |bodies|
  {
    hide *;
    var s := States(job, st, bodies);
    if i == 0 { assert seen + bodies[..0] == seen; }
    if |s| > 1 {
      StatesTail(job, st, bodies);
      var st' := Step(job, st, bodies[0]).st;
      StepCarries(job, ext, seen, st, bodies[0]);
      if i > 0 {
        StatesCarry(job, ext, seen + [bodies[0]], st', bodies[1..], i - 1);
        assert seen + [bodies[0]] + bodies[1..][..i - 1] == seen + bodies[..i];
        assert s[1..][i - 1] == s[i];
        if i + 1 < |s| { assert s[1..][i] == s[i + 1]; }
      } else {
        assert s[1..][0] == s[1];
      }
    }
  }

  lemma StatesTail(job: Job, st: Session, bodies: seq<bytes>)
    requires [] !in bodies && |States(job, st, bodies)| > 1
    ensures bodies != [] && bodies[0] != [] && [] !in bodies[1..] && Step(job, st, bodies[0]).Continue?
    ensures States(job, st, bodies)[1..] == States(job, Step(job, st, bodies[0]).st, bodies[1..])
  {
    assert bodies[0] in bodies;
    hide Step;
  }

  lemma StepCarries(job: Job, ext: nat, seen: seq<bytes>, st: Session, body: bytes)
    requires body != [] && st.ext == InForce(ext, seen, job.cfg) && Step(job, st, body).Continue?
    ensures var st' := Step(job, st, body).st;
            st'.ext == InForce(ext, seen + [body], job.cfg) && Extended(st, st')
  {
    assert (seen + [body])[..|seen|] == seen;
    if n :| Announces(body, n, job.cfg) {
      StepNumber(job, st, body, n);
      forall m | Announces(body, m, job.cfg) ensures m == n { AnnouncesOne(body, m, n, job.cfg); }
    } else {
      StepOther(job, st, body);
    }
    hide Announces, Step;
  }

  /** Over a whole session with any peer: the first requests carry the number of the first handshake, and the
      requests that message i brings about carry the number that the last handshake up to it advertised; a
      handshake that advertises 0 is the last message. */
  lemma RequestsCarryTheNumber(cfg: Config, size: int, ext: nat, requested: Option<int>, stream: bytes)
      returns (job: Job, bodies: seq<bytes>, s: seq<Session>)
    requires 0 < size <= cfg.maxMetadata
    ensures job == Job(cfg, size, PipelineLimit(cfg, requested)) && bodies == Bodies(cfg, stream, 0)
    ensures s == States(job, Start(job, ext), bodies)
    ensures EndsIn(job, Download(cfg, size, ext, requested, stream), s, bodies)
    ensures forall q :: 0 <= q < |s[0].sent| ==> s[0].sent[q] == Request(ext, q)
    ensures forall i :: 0 <= i < |s| - 1 ==> Extended(s[i], s[i + 1])
    ensures forall i :: 0 <= i < |s| ==> s[i].ext == InForce(ext, bodies[..i], cfg)
    ensures forall i :: 0 <= i < |s| - 1 ==> !Announces(bodies[i], 0, cfg)
    ensures |s| <= |bodies| && Announces(bodies[|s| - 1], 0, cfg) && |s[|s| - 1].pieces| < job.Count() ==>
              var wrong := SizeWrong(B.Decode(bodies[|s| - 1][2..], cfg.lim, false).value, cfg);
              Download(cfg, size, ext, requested, stream).outcome
              == Failed(if wrong then HandshakeInvalid else UtMetadataDisabled)
  {
    hide Fill, States, Extended, Run, Announces, Step, EndsIn, Finish, SizeWrong, B.Decode, Start, Bodies,
         PipelineLimit;
    job, bodies := Job(cfg, size, PipelineLimit(cfg, requested)), Bodies(cfg, stream, 0);
    s := States(job, Start(job, ext), bodies);
    RunIsStates(job, Start(job, ext), stream, 0);
    FirstRequests(job, ext, cfg);
    if |s| <= |bodies| && Announces(bodies[|s| - 1], 0, cfg) && |s[|s| - 1].pieces| < job.Count() {
      ZeroFails(job, Download(cfg, size, ext, requested, stream), s, bodies);
    }
    forall i | 0 <= i < |s|
      ensures s[i].ext == InForce(ext, bodies[..i], cfg) && (i < |s| - 1 ==> Extended(s[i], s[i + 1]))
    {
      StatesCarry(job, ext, [], s[0], bodies, i);
      assert [] + bodies[..i] == bodies[..i];
    }
    forall i | 0 <= i < |s| - 1 ensures !Announces(bodies[i], 0, cfg) {
      ZeroIsLast(job, s[0], bodies, i);
    }
  }

  lemma FirstRequests(job: Job, ext: nat, cfg: Config)
    ensures var st := Start(job, ext);
            && st.ext == InForce(ext, [], cfg) && st.pieces == map[]
            && forall q :: 0 <= q < |st.sent| ==> st.sent[q] == Request(ext, q)
  {
    FillRequests(job, Session(map[], {}, 0, ext, [], []));
    hide Fill;
  }

  lemma ZeroFails(job: Job, e: Ending, s: seq<Session>, bodies: seq<bytes>)
    requires job.Startable() && [] !in bodies && 0 < |s| <= |bodies| && EndsIn(job, e, s, bodies)
    requires |s[|s| - 1].pieces| < job.Count() && Announces(bodies[|s| - 1], 0, job.cfg)
    ensures var wrong := SizeWrong(B.Decode(bodies[|s| - 1][2..], job.cfg.lim, false).value, job.cfg);
            e.outcome == Failed(if wrong then HandshakeInvalid else UtMetadataDisabled)
  {
    assert bodies[|s| - 1] in bodies;
    StepNumber(job, e.st, bodies[|s| - 1], 0);
    hide Step, Finish, B.Decode, SizeWrong;
  }

  lemma {:induction false} ZeroIsLast(job: Job, st: Session, bodies: seq<bytes>, i: nat)
    requires [] !in bodies && i + 1 < |States(job, st, bodies)|
    ensures !Announces(bodies[i], 0, job.cfg)
    decreases |bodies|
  {
    assert bodies[0] in bodies;
    if i == 0 {
      if Announces(bodies[0], 0, job.cfg) { StepNumber(job, st, bodies[0], 0); }
      hide Announces, Step;
    } else {
      hide Step;
      ZeroIsLast(job, Step(job, st, bodies[0]).st, bodies[1..], i - 1);
    }
  }
}

/** Fetching torrent metadata from a peer in pieces: message parsing and the download session as a
    function of the bytes the peer sends. `MetadataDownload.dfy` has the loop that computes it. */
module Metadata {
  import opened Wrappers
  import opened Bytes
  import B = Bencode

  const BLOCK: nat := 16384
  const EXTENDED: byte := 20
  const PORT: byte := 9
  const LOCAL_ID: byte := 1

  datatype Config = Config(maxMetadata: int, pipeline: nat, maxMessage: nat, lim: B.Limits)

  datatype Failure =
    | InvalidSize | MessageTooLong | HandshakeInvalid | UtMetadataDisabled | MessageInvalid
    | Rejected | Unsolicited | Conflict | LengthMismatch | Disconnected
    | TypeError  // raised outside the expected peer errors: an unhashable message type

  function Get(m: map<bytes, B.Value>, k: bytes): Option<B.Value> {
    if k in m then Some(m[k]) else None
  }

  // ---- The repeated extension handshake ----

  datatype Extension = ExtensionOk(utMetadata: Option<nat>) | ExtensionError

  function ParseExtension(payload: bytes, cfg: Config): Extension {
    match B.Decode(payload, cfg.lim, false)
    case Err(_) => ExtensionError
    case Ok(v, _, _) =>
      if !v.Dict? || !SizeFieldOk(Get(v.entries, Ascii("metadata_size")), cfg) then ExtensionError
      else ExtensionOk(UtMetadata(Get(v.entries, Ascii("m"))))
  }

  predicate SizeFieldOk(f: Option<B.Value>, cfg: Config) {
    f.None? || (f.value.Int? && 0 < f.value.i <= cfg.maxMetadata)
  }

  /** The advertised extension number, where it is one: only integers in 0..255 enter the mapping. */
  function UtMetadata(m: Option<B.Value>): Option<nat> {
    if m.None? || !m.value.Dict? then None
    else
      match Get(m.value.entries, Ascii("ut_metadata"))
      case None => None
      case Some(v) => if v.Int? && 0 <= v.i <= 255 then Some(v.i) else None
  }

  // ---- Metadata messages ----

  datatype Message = MessageOk(kind: nat, piece: nat, data: bytes) | MessageError(failure: Failure)

  function PieceCount(size: int): int {
    (size + BLOCK - 1) / BLOCK
  }

  /** The number of bytes of a piece. */
  function PieceSize(size: int, piece: nat): int {
    var left := size - piece * BLOCK;
    if BLOCK < left then BLOCK else left
  }

  function ParseMessage(payload: bytes, size: int, count: int, lim: B.Limits): (r: Message)
    ensures r.MessageOk? ==> r.kind <= 2 && r.piece < count
    ensures r.MessageOk? && r.kind == 1 ==> |r.data| == PieceSize(size, r.piece)
    ensures r.MessageError? ==> r.failure == MessageInvalid || r.failure == TypeError
  {
    match B.DecodePrefix(payload, lim, false)
    case Err(_) => MessageError(MessageInvalid)
    case Ok(v, consumed, _) => Interpret(v, payload[consumed..], size, count)
  }

  /** The checks on a decoded header and the bytes that follow it. */
  function Interpret(v: B.Value, trailing: bytes, size: int, count: int): (r: Message)
    ensures r.MessageOk? ==> r.kind <= 2 && r.piece < count && r.data == trailing
    ensures r.MessageOk? && r.kind == 1 ==> |r.data| == PieceSize(size, r.piece)
    ensures r.MessageError? ==> r.failure == MessageInvalid || r.failure == TypeError
  {
    if !v.Dict? then MessageError(MessageInvalid)
    else
      var kind := Get(v.entries, Ascii("msg_type"));
      var piece := Get(v.entries, Ascii("piece"));
      if kind.Some? && (kind.value.List? || kind.value.Dict?) then MessageError(TypeError)
      else if kind.None? || !kind.value.Int? || !(0 <= kind.value.i <= 2) then MessageError(MessageInvalid)
      else if piece.None? || !piece.value.Int? || !(0 <= piece.value.i < count) then MessageError(MessageInvalid)
      else if kind.value.i == 1 then
        if Get(v.entries, Ascii("total_size")) != Some(B.Int(size)) || |trailing| != PieceSize(size, piece.value.i)
        then MessageError(MessageInvalid)
        else MessageOk(1, piece.value.i, trailing)
      else if trailing != [] then MessageError(MessageInvalid)
      else MessageOk(kind.value.i, piece.value.i, trailing)
  }

  /** What is written to the peer. */
  datatype Sent = Request(ext: nat, piece: nat) | Refusal(piece: nat)

  /** The header of a request. */
  function RequestHeader(piece: nat): B.Value {
    B.Dict(map[Ascii("msg_type") := B.Int(0), Ascii("piece") := B.Int(piece)])
  }

  // ---- The session ----

  /** The fixed part of a session. */
  datatype Job = Job(cfg: Config, size: int, limit: nat) {
    function Count(): int {
      PieceCount(size)
    }

    /** The pieces fit the configured bounds; otherwise the session is refused at once. */
    predicate Startable() {
      Count() > 0 && size <= cfg.maxMetadata
    }
  }

  /** The number of requests that may be under way. */
  function PipelineLimit(cfg: Config, requested: Option<int>): nat {
    var r := if requested.Some? && requested.value != 0 then requested.value else cfg.pipeline;
    var m := if cfg.pipeline < r then cfg.pipeline else r;
    if m < 1 then 1 else m
  }

  /** `log` records the data messages that were accepted, in order of arrival. */
  datatype Session = Session(pieces: map<nat, bytes>, outstanding: set<nat>, next: nat, ext: nat,
                             sent: seq<Sent>, log: seq<(nat, bytes)>)

  function RequestNext(st: Session): Session {
    st.(sent := st.sent + [Request(st.ext, st.next)], outstanding := st.outstanding + {st.next}, next := st.next + 1)
  }

  /** `fill_pipeline` */
  function Fill(job: Job, st: Session): Session
    decreases job.Count() - st.next
  {
    if st.next < job.Count() && |st.outstanding| < job.limit then Fill(job, RequestNext(st)) else st
  }

  function Start(job: Job, ext: nat): Session {
    Fill(job, Session(map[], {}, 0, ext, [], []))
  }

  datatype StepResult = Continue(st: Session) | Fail(failure: Failure)

  function Step(job: Job, st: Session, body: bytes): StepResult
    requires body != []
  {
    if body[0] != EXTENDED || |body| < 2 then Continue(st)  // a port message is only recorded
    else if body[1] == 0 then
      match ParseExtension(body[2..], job.cfg)
      case ExtensionError => Fail(HandshakeInvalid)
      case ExtensionOk(None) => Continue(st)
      case ExtensionOk(Some(id)) => if id == 0 then Fail(UtMetadataDisabled) else Continue(st.(ext := id))
    else if body[1] == LOCAL_ID then
      match ParseMessage(body[2..], job.size, job.Count(), job.cfg.lim)
      case MessageError(e) => Fail(e)
      case MessageOk(kind, piece, data) => Handle(job, st, kind, piece, data)
    else Continue(st)
  }

  /** A well-formed metadata message. */
  function Handle(job: Job, st: Session, kind: nat, piece: nat, data: bytes): StepResult {
    if kind == 0 then Continue(st.(sent := st.sent + [Refusal(piece)]))
    else if kind == 2 then
      if piece in st.outstanding then Fail(Rejected) else Continue(st)
    else if piece !in st.outstanding && piece !in st.pieces then Fail(Unsolicited)
    else if piece in st.pieces then
      if st.pieces[piece] != data then Fail(Conflict) else Continue(st.(log := st.log + [(piece, data)]))
    else
      Continue(Fill(job, Accept(st, piece, data)))
  }

  function Accept(st: Session, piece: nat, data: bytes): Session {
    st.(pieces := st.pieces[piece := data], outstanding := st.outstanding - {piece}, log := st.log + [(piece, data)])
  }

  /** The pieces in order. */
  function Join(pieces: map<nat, bytes>, n: nat): bytes {
    if n == 0 then [] else Join(pieces, n - 1) + (if n - 1 in pieces then pieces[n - 1] else [])
  }

  datatype Outcome = Got(raw: bytes) | Failed(failure: Failure)

  /** The outcome of a session and its last state. */
  datatype Ending = Ending(outcome: Outcome, st: Session)

  function Finish(job: Job, st: Session): Outcome
    requires job.Startable()
  {
    var raw := Join(st.pieces, job.Count());
    if |raw| != job.size then Failed(LengthMismatch) else Got(raw)
  }

  /** Reading length-prefixed messages from `stream` at `pos` until all pieces are there. */
  function Run(job: Job, st: Session, stream: bytes, pos: nat): Ending
    requires job.Startable() && pos <= |stream|
    decreases |stream| - pos
  {
    if |st.pieces| >= job.Count() then Ending(Finish(job, st), st)
    else if pos + 4 > |stream| then Ending(Failed(Disconnected), st)
    else
      var length := FromBytes(stream[pos..pos + 4]);
      if length == 0 then Run(job, st, stream, pos + 4)
      else if length > job.cfg.maxMessage then Ending(Failed(MessageTooLong), st)
      else if pos + 4 + length > |stream| then Ending(Failed(Disconnected), st)
      else
        match Step(job, st, stream[pos + 4..pos + 4 + length])
        case Fail(e) => Ending(Failed(e), st)
        case Continue(st') => Run(job, st', stream, pos + 4 + length)
  }

  /** A whole session: the peer's announced size and extension number, and everything it sends. */
  function Download(cfg: Config, size: int, ext: nat, requested: Option<int>, stream: bytes): Ending {
    var job := Job(cfg, size, PipelineLimit(cfg, requested));
    if !job.Startable() then Ending(Failed(InvalidSize), Session(map[], {}, 0, ext, [], []))
    else Run(job, Start(job, ext), stream, 0)
  }
}

/** The download loop with the variables it updates: it computes `Metadata.Download`. */
module MetadataDownload {
  import opened Wrappers
  import opened Bytes
  import opened Metadata
  import opened MetadataProofs

  class Downloader {
    const job: Job
    var pieces: map<nat, bytes>
    var outstanding: set<nat>
    var nextPiece: nat
    var remoteExt: nat
    var sent: seq<Sent>
    ghost var log: seq<(nat, bytes)>

    constructor (job: Job, ext: nat)
      ensures this.job == job && State() == Session(map[], {}, 0, ext, [], [])
    {
      this.job := job;
      pieces, outstanding, nextPiece, remoteExt, sent, log := map[], {}, 0, ext, [], [];
    }

    ghost function State(): Session
      reads this
    {
      Session(pieces, outstanding, nextPiece, remoteExt, sent, log)
    }

    /** `fill_pipeline` */
    method FillPipeline()
      modifies this
      ensures State() == Fill(job, old(State()))
    {
      while nextPiece < job.Count() && |outstanding| < job.limit
        invariant Fill(job, State()) == Fill(job, old(State()))
        decreases job.Count() - nextPiece
      {
        sent := sent + [Request(remoteExt, nextPiece)];
        outstanding := outstanding + {nextPiece};
        nextPiece := nextPiece + 1;
      }
    }

    /** One message of the peer; the failure it raises, if any. */
    method Receive(body: bytes) returns (failure: Option<Failure>)
      requires body != []
      modifies this
      ensures match Step(job, old(State()), body)
              case Fail(e) => failure == Some(e) && State() == old(State())
              case Continue(st) => failure == None && State() == st
    {
      hide ParseExtension, ParseMessage, Fill;
      if body[0] == PORT && |body| == 3 { return None; }
      if body[0] != EXTENDED || |body| < 2 { return None; }
      var extId := body[1];
      if extId == 0 {
        var x := ParseExtension(body[2..], job.cfg);
        if x.ExtensionError? { return Some(HandshakeInvalid); }
        if x.utMetadata.Some? {
          var updated := x.utMetadata.value;
          if updated == 0 { return Some(UtMetadataDisabled); }
          remoteExt := updated;
        }
        return None;
      }
      if extId == LOCAL_ID {
        var m := ParseMessage(body[2..], job.size, job.Count(), job.cfg.lim);
        if m.MessageError? { return Some(m.failure); }
        failure := OnMessage(m.kind, m.piece, m.data);
        return;
      }
      return None;
    }

    method OnMessage(kind: nat, piece: nat, data: bytes) returns (failure: Option<Failure>)
      modifies this
      ensures match Handle(job, old(State()), kind, piece, data)
              case Fail(e) => failure == Some(e) && State() == old(State())
              case Continue(st) => failure == None && State() == st
    {
      if kind == 0 {
        sent := sent + [Refusal(piece)];
        return None;
      }
      if kind == 2 {
        if piece in outstanding { return Some(Rejected); }
        return None;
      }
      if piece !in outstanding && piece !in pieces { return Some(Unsolicited); }
      if piece in pieces {
        if pieces[piece] != data { return Some(Conflict); }
        log := log + [(piece, data)];
        return None;
      }
      pieces := pieces[piece := data];
      outstanding := outstanding - {piece};
      log := log + [(piece, data)];
      FillPipeline();
      return None;
    }

    /** The pieces in order. */
    method Assemble() returns (raw: bytes)
      requires job.Count() >= 0
      ensures raw == Join(pieces, job.Count())
    {
      raw := [];
      var i := 0;
      while i < job.Count()
        invariant 0 <= i <= job.Count() && raw == Join(pieces, i)
      {
        raw := raw + if i in pieces then pieces[i] else [];
        i := i + 1;
      }
    }

    /** The reading loop, on everything the peer will send. */
    method Fetch(stream: bytes) returns (r: Outcome)
      requires job.Startable()
      modifies this
      ensures Ending(r, State()) == Run(job, old(State()), stream, 0)
    {
      hide Step, FromBytes, Join;
      var pos := 0;
      while |pieces| < job.Count()
        invariant 0 <= pos <= |stream|
        invariant Run(job, State(), stream, pos) == Run(job, old(State()), stream, 0)
        decreases |stream| - pos
      {
        if pos + 4 > |stream| { return Failed(Disconnected); }
        var length := FromBytes(stream[pos..pos + 4]);
        pos := pos + 4;
        if length == 0 { continue; }
        if length > job.cfg.maxMessage { return Failed(MessageTooLong); }
        if pos + length > |stream| { return Failed(Disconnected); }
        var body := stream[pos..pos + length];
        pos := pos + length;
        var failure := Receive(body);
        if failure.Some? { return Failed(failure.value); }
      }
      var raw := Assemble();
      r := if |raw| != job.size then Failed(LengthMismatch) else Got(raw);
    }
  }

  /** `_download_metadata` */
  method DownloadMetadata(cfg: Config, size: int, ext: nat, requested: Option<int>, stream: bytes)
      returns (r: Outcome, sent: seq<Sent>)
    requires 1 <= ext <= 255
    ensures r == Download(cfg, size, ext, requested, stream).outcome
    ensures r != Failed(LengthMismatch) && (r.Got? ==> |r.raw| == size)
    ensures r.Got? ==> Requested(sent) == UpTo(PieceCount(size))
  {
    var job := Job(cfg, size, PipelineLimit(cfg, requested));
    DownloadSound(cfg, size, ext, requested, stream);
    if !job.Startable() { return Failed(InvalidSize), []; }
    var d := new Downloader(job, ext);
    d.FillPipeline();
    r := d.Fetch(stream);
    sent := d.sent;
  }
}

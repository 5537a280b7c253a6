/** Chunked upload across three layers: the browser's loop (apps/web/src/components/FileWorkspace.tsx),
  the session object (apps/worker/src/durable/ssh-session.ts) and the SFTP engine
  (apps/worker/src/ssh/ssh2-engine.ts), each with an offset of its own. */
module SftpUpload {
  import opened Common

  type TransferId = string

  const MAX_UPLOAD_CHUNK_BYTES := 256 * 1024
  const MAX_TERMINAL_CHUNK_BYTES := 64 * 1024

  /** The engine's record of an upload; content is what its remote stream has been given. */
  datatype UploadState = UploadState(path: string, offset: nat, content: Bytes)

  /** The session object's record of an upload. */
  datatype Transfer = Transfer(path: string, size: nat, offset: nat)

  /** What the remote side does during one engine call. */
  datatype Remote = Works | NoSftp | WriteFails | EndFails

  datatype Result<T> = Ok(value: T) | Err

  /** Engine state: open uploads, and the content each stream had when it was ended. */
  datatype Engine = Engine(uploads: map<TransferId, UploadState>, closed: map<TransferId, Bytes>)

  /** `SSH2Engine.upload`. */
  function EngineUpload(e: Engine, id: TransferId, path: string, offset: nat, chunk: Bytes, done: bool, remote: Remote)
    : (Engine, Result<nat>)
  {
    if id == "" || |chunk| > MAX_UPLOAD_CHUNK_BYTES || remote.NoSftp? then (e, Err)
    else
      var ready := if offset == 0 then e.(uploads := e.uploads[id := UploadState(path, 0, [])]) else e;
      if id !in ready.uploads || ready.uploads[id].path != path || offset != ready.uploads[id].offset then (ready, Err)
      else if (|chunk| > 0 && remote.WriteFails?) || (done && remote.EndFails?) then
        (ready.(uploads := ready.uploads - {id}), Err)
      else
        var written := UploadState(path, offset + |chunk|, ready.uploads[id].content + chunk);
        if done then (Engine(ready.uploads - {id}, ready.closed[id := written.content]), Ok(written.offset))
        else (ready.(uploads := ready.uploads[id := written]), Ok(written.offset))
  }

  datatype State = State(transfers: map<TransferId, Transfer>, engine: Engine)

  const INITIAL := State(map[], Engine(map[], map[]))

  /** What the client is told: an error, or progress with the acknowledged offset. */
  datatype Reply = Error | Progress(offset: nat, completed: bool) | NoReply

  /** The upload branch of `handleBinaryFrame`. */
  function HandleFrame(st: State, id: TransferId, offset: nat, payload: Bytes, remote: Remote): (State, Reply) {
    if id !in st.transfers || st.transfers[id].offset != offset then (st, Error)
    else
      var transfer := st.transfers[id];
      if transfer.offset + |payload| > transfer.size then (st, Error)
      else
        var done := transfer.offset + |payload| == transfer.size;
        var (engine, r) := EngineUpload(st.engine, id, transfer.path, transfer.offset, payload, done, remote);
        if r.Err? then (st.(engine := engine), Error)
        else if done then (State(st.transfers - {id}, engine), Progress(r.value, true))
        else (State(st.transfers[id := transfer.(offset := r.value)], engine), Progress(r.value, false))
  }

  /** `startUpload`, with the random identifier it draws. */
  function StartUpload(st: State, id: TransferId, path: string, size: nat, remote: Remote): (State, Reply) {
    var started := st.(transfers := st.transfers[id := Transfer(path, size, 0)]);
    if size == 0 then
      var (engine, r) := EngineUpload(st.engine, id, path, 0, [], true, remote);
      if r.Err? then (started.(engine := engine), Error)
      else (State(started.transfers - {id}, engine), Progress(0, true))
    else (started, Progress(0, false))
  }

  // ---------------------------------------------------------------- the objects

  class SSH2Engine {
    var uploads: map<TransferId, UploadState>
    ghost var closed: map<TransferId, Bytes>

    ghost function Abstract(): Engine
      reads this
    {
      Engine(uploads, closed)
    }

    constructor ()
      ensures Abstract() == Engine(map[], map[])
    {
      uploads, closed := map[], map[];
    }

    method Upload(requestId: TransferId, path: string, offset: nat, chunk: Bytes, done: bool, remote: Remote)
      returns (r: Result<nat>)
      modifies this
      ensures (Abstract(), r) == EngineUpload(old(Abstract()), requestId, path, offset, chunk, done, remote)
    {
      if requestId == "" || |chunk| > MAX_UPLOAD_CHUNK_BYTES { return Err; }
      if remote.NoSftp? { return Err; }
      if offset == 0 {
        uploads := uploads[requestId := UploadState(path, 0, [])];
      }
      ghost var ready := uploads;
      if requestId !in uploads || uploads[requestId].path != path || offset != uploads[requestId].offset {
        return Err;
      }
      var upload := uploads[requestId];
      if |chunk| > 0 {
        if remote.WriteFails? {
          uploads := uploads - {requestId};
          return Err;
        }
        upload := upload.(offset := upload.offset + |chunk|, content := upload.content + chunk);
        uploads := uploads[requestId := upload];
      }
      assert upload == UploadState(path, offset + |chunk|, ready[requestId].content + chunk);
      assert uploads == ready[requestId := upload] && uploads - {requestId} == ready - {requestId};
      if done {
        if remote.EndFails? {
          uploads := uploads - {requestId};
          return Err;
        }
        uploads := uploads - {requestId};
        closed := closed[requestId := upload.content];
      }
      return Ok(upload.offset);
    }

    /** The stream's error handler. */
    method StreamFailed(requestId: TransferId)
      modifies this
      ensures Abstract() == old(Abstract()).(uploads := old(uploads) - {requestId})
    {
      uploads := uploads - {requestId};
    }
  }

  class SessionObject {
    const engine: SSH2Engine
    var transfers: map<TransferId, Transfer>

    ghost function Abstract(): State
      reads this, engine
    {
      State(transfers, engine.Abstract())
    }

    constructor (engine: SSH2Engine)
      ensures this.engine == engine && Abstract() == State(map[], engine.Abstract())
    {
      this.engine, transfers := engine, map[];
    }

    method HandleBinaryFrame(id: TransferId, offset: nat, payload: Bytes, remote: Remote) returns (reply: Reply)
      modifies this, engine
      ensures (Abstract(), reply) == HandleFrame(old(Abstract()), id, offset, payload, remote)
    {
      if id !in transfers || transfers[id].offset != offset { return Error; }
      var transfer := transfers[id];
      if transfer.offset + |payload| > transfer.size { return Error; }
      var done := transfer.offset + |payload| == transfer.size;
      var r := engine.Upload(id, transfer.path, transfer.offset, payload, done, remote);
      if r.Err? { return Error; }
      transfers := transfers[id := transfer.(offset := r.value)];
      if done {
        assert transfers - {id} == old(transfers) - {id};
        transfers := transfers - {id};
      }
      return Progress(r.value, done);
    }

    method Start(id: TransferId, path: string, size: nat, remote: Remote) returns (reply: Reply)
      modifies this, engine
      ensures (Abstract(), reply) == StartUpload(old(Abstract()), id, path, size, remote)
    {
      transfers := transfers[id := Transfer(path, size, 0)];
      if size == 0 {
        var r := engine.Upload(id, path, 0, [], true, remote);
        if r.Err? { return Error; }
        transfers := transfers - {id};
        return Progress(0, true);
      }
      return Progress(0, false);
    }
  }

  // ---------------------------------------------------------------- runs

  datatype Event =
    | Start(id: TransferId, path: string, size: nat, remote: Remote)
    | Frame(id: TransferId, offset: nat, payload: Bytes, remote: Remote)
    | StreamError(id: TransferId)
    | SessionCloses

  function Step(st: State, e: Event): (State, Reply) {
    match e
    case Start(id, path, size, remote) => StartUpload(st, id, path, size, remote)
    case Frame(id, offset, payload, remote) => HandleFrame(st, id, offset, payload, remote)
    case StreamError(id) => (st.(engine := st.engine.(uploads := st.engine.uploads - {id})), NoReply)
    case SessionCloses => (State(map[], st.engine.(uploads := map[])), NoReply)
  }

  function After(events: seq<Event>): State {
    if events == [] then INITIAL else Step(After(events[..|events| - 1]), events[|events| - 1]).0
  }

  function LastReply(events: seq<Event>): Reply
    requires events != []
  {
    Step(After(events[..|events| - 1]), events[|events| - 1]).1
  }

  /** Every upload gets an identifier that was never used before. */
  ghost predicate UniqueIds(events: seq<Event>) {
    forall i, j :: 0 <= i < j < |events| && events[j].Start? ==> !(!events[i].SessionCloses? && events[i].id == events[j].id)
  }

  /** The payloads acknowledged for id, seen from outside; a frame at offset 0 starts over. */
  function Acknowledged(events: seq<Event>, id: TransferId): Bytes {
    if events == [] then []
    else
      var e := events[|events| - 1];
      var before := Acknowledged(events[..|events| - 1], id);
      if e.Frame? && e.id == id && LastReply(events).Progress? then (if e.offset == 0 then [] else before) + e.payload
      else before
  }

  /** The size declared for id by its start. */
  ghost predicate Declared(events: seq<Event>, id: TransferId, size: nat) {
    exists i :: 0 <= i < |events| && events[i].Start? && events[i].id == id && events[i].size == size
  }

  ghost predicate Used(events: seq<Event>, id: TransferId) {
    exists i :: 0 <= i < |events| && !events[i].SessionCloses? && events[i].id == id
  }

  /** The offsets of the two layers agree whenever both exist, and the remote stream has been given
      exactly the acknowledged payloads. */
  ghost predicate Consistent(events: seq<Event>, st: State) {
    forall id :: ConsistentAt(events, st, id)
  }

  ghost predicate ConsistentAt(events: seq<Event>, st: State, id: TransferId) {
    && (id in st.transfers ==> Declared(events, id, st.transfers[id].size))
    && (id in st.engine.uploads ==>
          Used(events, id) && st.engine.uploads[id].offset == |st.engine.uploads[id].content|)
    && (id in st.transfers && id in st.engine.uploads ==>
          && st.transfers[id].offset == st.engine.uploads[id].offset
          && st.engine.uploads[id].content == Acknowledged(events, id))
  }

  lemma PastGrows(before: seq<Event>, e: Event)
    ensures forall id, size: nat :: Declared(before, id, size) ==> Declared(before + [e], id, size)
    ensures forall id :: Used(before, id) ==> Used(before + [e], id)
    ensures e.Start? ==> Declared(before + [e], e.id, e.size)
    ensures !e.SessionCloses? ==> Used(before + [e], e.id)
    ensures (before + [e])[..|before|] == before
  {
    var events := before + [e];
    assert events[|before|] == e;
    forall id, size: nat | Declared(before, id, size) ensures Declared(events, id, size) {
      var i :| 0 <= i < |before| && before[i].Start? && before[i].id == id && before[i].size == size;
      assert events[i] == before[i];
    }
    forall id | Used(before, id) ensures Used(events, id) {
      var i :| 0 <= i < |before| && !before[i].SessionCloses? && before[i].id == id;
      assert events[i] == before[i];
    }
  }

  lemma {:induction false} UnusedUnacknowledged(events: seq<Event>, id: TransferId)
    requires !Used(events, id)
    ensures Acknowledged(events, id) == []
  {
    if events != [] {
      var before := events[..|events| - 1];
      assert events == before + [events[|events| - 1]];
      PastGrows(before, events[|events| - 1]);
      UnusedUnacknowledged(before, id);
    }
  }

  lemma FreshStart(before: seq<Event>, e: Event)
    requires UniqueIds(before + [e])
    ensures UniqueIds(before) && (e.Start? ==> !Used(before, e.id))
  {
    var events := before + [e];
    assert events[|before|] == e;
    assert forall i :: 0 <= i < |before| ==> events[i] == before[i];
  }

  /** One engine call: the other uploads are untouched, a success extends the stream by the chunk, and
      a failure forgets the upload or changes nothing. */
  lemma EngineEffect(e: Engine, id: TransferId, path: string, offset: nat, chunk: Bytes, done: bool, remote: Remote)
    ensures var (e', r) := EngineUpload(e, id, path, offset, chunk, done, remote);
            && (forall k :: k != id ==> (k in e'.uploads <==> k in e.uploads) && (k in e.uploads ==> e'.uploads[k] == e.uploads[k]))
            && if r.Err? then
                 e'.closed == e.closed && (id in e'.uploads ==> id in e.uploads && e'.uploads[id] == e.uploads[id])
               else
                 && r.value == offset + |chunk|
                 && (offset > 0 ==> id in e.uploads && e.uploads[id].offset == offset)
                 && var content := (if offset == 0 then [] else e.uploads[id].content) + chunk;
                    if done then id !in e'.uploads && e'.closed == e.closed[id := content]
                    else id in e'.uploads && e'.uploads[id] == UploadState(path, r.value, content) && e'.closed == e.closed
  {
  }

  /** The recursive definitions, one event on. */
  lemma OneMore(before: seq<Event>, e: Event)
    ensures After(before + [e]) == Step(After(before), e).0
    ensures LastReply(before + [e]) == Step(After(before), e).1
    ensures e.Start? ==> Step(After(before), e) == StartUpload(After(before), e.id, e.path, e.size, e.remote)
    ensures e.Frame? ==> Step(After(before), e) == HandleFrame(After(before), e.id, e.offset, e.payload, e.remote)
    ensures forall id :: Acknowledged(before + [e], id) ==
              if e.Frame? && e.id == id && Step(After(before), e).1.Progress?
              then (if e.offset == 0 then [] else Acknowledged(before, id)) + e.payload
              else Acknowledged(before, id)
  {
    assert (before + [e])[..|before|] == before;
  }

  lemma StartConsistent(before: seq<Event>, e: Event)
    requires e.Start? && UniqueIds(before + [e]) && Consistent(before, After(before))
    ensures Consistent(before + [e], After(before + [e]))
    ensures Completes(before + [e]) ==> Exact(before + [e], e.id)
  {
    hide Declared, Used, UniqueIds, EngineUpload, HandleFrame, After, Acknowledged, LastReply;
    FreshStart(before, e);
    PastGrows(before, e);
    OneMore(before, e);
    UnusedUnacknowledged(before, e.id);
    EngineEffect(After(before).engine, e.id, e.path, 0, [], true, e.remote);
    var nothing: Bytes := [];
    assert nothing + nothing == nothing;
    if Completes(before + [e]) {
      assert After(before + [e]).engine.closed[e.id] == nothing && Exact(before + [e], e.id);
    }
    forall id ensures ConsistentAt(before + [e], After(before + [e]), id) {
      assert ConsistentAt(before, After(before), id);
    }
  }

  lemma FrameConsistent(before: seq<Event>, e: Event)
    requires e.Frame? && Consistent(before, After(before))
    ensures Consistent(before + [e], After(before + [e]))
    ensures Completes(before + [e]) ==> Exact(before + [e], e.id)
  {
    hide Declared, Used, UniqueIds, EngineUpload, StartUpload, After, Acknowledged, LastReply;
    PastGrows(before, e);
    OneMore(before, e);
    var st, st' := After(before), After(before + [e]);
    assert ConsistentAt(before, st, e.id);
    if e.id in st.transfers {
      var transfer := st.transfers[e.id];
      var done := transfer.offset + |e.payload| == transfer.size;
      EngineEffect(st.engine, e.id, transfer.path, transfer.offset, e.payload, done, e.remote);
      if Step(st, e).1.Progress? {
        assert e.offset == transfer.offset;
        var content := (if e.offset == 0 then [] else st.engine.uploads[e.id].content) + e.payload;
        assert content == Acknowledged(before + [e], e.id) && |content| == e.offset + |e.payload|;
        if done { assert st'.engine.closed[e.id] == content && Exact(before + [e], e.id); }
      }
    }
    forall id ensures ConsistentAt(before + [e], st', id) {
      assert ConsistentAt(before, st, id);
    }
  }

  /** The last event was answered with "completed". */
  ghost predicate Completes(events: seq<Event>) {
    events != [] && LastReply(events).Progress? && LastReply(events).completed
  }

  /** The stream ended for id holds the acknowledged payloads, as many bytes as were declared. */
  ghost predicate Exact(events: seq<Event>, id: TransferId) {
    var closed := After(events).engine.closed;
    id in closed && closed[id] == Acknowledged(events, id) && Declared(events, id, |closed[id]|)
  }

  /** One event keeps the layers consistent; a completion finds the whole upload in the stream. */
  lemma StepConsistent(before: seq<Event>, e: Event)
    requires UniqueIds(before + [e]) && Consistent(before, After(before))
    ensures Consistent(before + [e], After(before + [e]))
    ensures Completes(before + [e]) ==> (e.Frame? || e.Start?) && Exact(before + [e], e.id)
  {
    hide Used, UniqueIds, Declared, EngineUpload, HandleFrame, StartUpload;
    if e.Start? {
      StartConsistent(before, e);
    } else if e.Frame? {
      FrameConsistent(before, e);
    } else {
      PastGrows(before, e);
      forall id ensures ConsistentAt(before + [e], After(before + [e]), id) {
        assert ConsistentAt(before, After(before), id);
      }
    }
  }

  lemma {:induction false} LayersConsistent(events: seq<Event>)
    requires UniqueIds(events)
    ensures Consistent(events, After(events))
  {
    if events != [] {
      var before, e := events[..|events| - 1], events[|events| - 1];
      assert events == before + [e];
      FreshStart(before, e);
      LayersConsistent(before);
      StepConsistent(before, e);
    }
  }

  /** Completion means exactness: whatever frames came before, when "completed" is sent for id the
      ended remote stream is the concatenation of the acknowledged payloads, as long as declared. */
  lemma CompletedIsExact(events: seq<Event>)
    requires UniqueIds(events) && Completes(events)
    ensures var e := events[|events| - 1]; (e.Frame? || e.Start?) && Exact(events, e.id)
  {
    var before, e := events[..|events| - 1], events[|events| - 1];
    assert events == before + [e];
    FreshStart(before, e);
    LayersConsistent(before);
    StepConsistent(before, e);
  }

  // ---------------------------------------------------------------- the file arrives

  /** A payload that fits is the slice of the file that its offset claims. */
  predicate IsSlice(bytes: Bytes, offset: nat, payload: Bytes) {
    offset + |payload| <= |bytes| ==> payload == bytes[offset..offset + |payload|]
  }

  /** Every event of transfer id belongs to an upload of the file: its frames may come in any order, be
      repeated, overlap or fail. */
  ghost predicate Uploads(events: seq<Event>, id: TransferId, bytes: Bytes) {
    forall i :: 0 <= i < |events| ==> UploadsPart(events[i], id, bytes)
  }

  ghost predicate UploadsPart(e: Event, id: TransferId, bytes: Bytes) {
    && (e.Start? && e.id == id ==> e.size == |bytes|)
    && (e.Frame? && e.id == id ==> IsSlice(bytes, e.offset, e.payload))
  }

  /** The remote streams of id, open or ended, hold a prefix of the file. */
  ghost predicate HoldsPrefix(st: State, id: TransferId, bytes: Bytes) {
    && (id in st.transfers ==> st.transfers[id].size == |bytes|)
    && (id in st.engine.uploads ==> st.engine.uploads[id].content <= bytes
                                    && st.engine.uploads[id].offset == |st.engine.uploads[id].content|)
    && (id in st.engine.closed ==> st.engine.closed[id] <= bytes)
  }

  lemma {:induction false} StreamsArePrefixes(events: seq<Event>, id: TransferId, bytes: Bytes)
    requires Uploads(events, id, bytes)
    ensures HoldsPrefix(After(events), id, bytes)
  {
    if events != [] {
      var before, e := events[..|events| - 1], events[|events| - 1];
      assert events == before + [e];
      hide HoldsPrefix, After, Step;
      StreamsArePrefixes(before, id, bytes);
      assert UploadsPart(e, id, bytes);
      OneMore(before, e);
      PrefixStep(After(before), e, id, bytes);
    }
  }

  lemma PrefixStep(st: State, e: Event, id: TransferId, bytes: Bytes)
    requires UploadsPart(e, id, bytes) && HoldsPrefix(st, id, bytes)
    ensures HoldsPrefix(Step(st, e).0, id, bytes)
  {
    hide EngineUpload;
    if !e.SessionCloses? && e.id != id {
      OtherStep(st, e, id);
    } else if e.Start? {
      EngineEffect(st.engine, id, e.path, 0, [], true, e.remote);
    } else if e.Frame? {
      PrefixFrame(st, id, e.offset, e.payload, e.remote, bytes);
    }
  }

  lemma PrefixFrame(st: State, id: TransferId, offset: nat, payload: Bytes, remote: Remote, bytes: Bytes)
    requires IsSlice(bytes, offset, payload) && HoldsPrefix(st, id, bytes)
    ensures HoldsPrefix(HandleFrame(st, id, offset, payload, remote).0, id, bytes)
  {
    hide EngineUpload;
    if id in st.transfers && offset == st.transfers[id].offset && offset + |payload| <= |bytes| {
      var transfer := st.transfers[id];
      EngineEffect(st.engine, id, transfer.path, offset, payload, offset + |payload| == transfer.size, remote);
      PrefixExtends(bytes, offset, payload);
    }
  }

  lemma PrefixExtends(bytes: Bytes, offset: nat, payload: Bytes)
    requires offset + |payload| <= |bytes| && payload == bytes[offset..offset + |payload|]
    ensures bytes[..offset] + payload <= bytes
    ensures offset == 0 ==> [] + payload <= bytes
  {
    assert bytes[..offset] + payload == bytes[..offset + |payload|];
  }

  /** A completed upload of a file left exactly that file in the remote stream. */
  lemma FileUploaded(events: seq<Event>, bytes: Bytes)
    requires UniqueIds(events) && Completes(events)
    requires var e := events[|events| - 1]; (e.Frame? || e.Start?) && Uploads(events, e.id, bytes)
    ensures var id := events[|events| - 1].id;
            id in After(events).engine.closed && After(events).engine.closed[id] == bytes
  {
    var id := events[|events| - 1].id;
    CompletedIsExact(events);
    StreamsArePrefixes(events, id, bytes);
    var closed := After(events).engine.closed;
    var i :| 0 <= i < |events| && events[i].Start? && events[i].id == id && events[i].size == |closed[id]|;
    assert UploadsPart(events[i], id, bytes);
  }

  // ---------------------------------------------------------------- the client's loop

  datatype Chunk = Chunk(offset: nat, payload: Bytes)

  /** The chunks of the file from offset on. */
  function ChunksFrom(bytes: Bytes, offset: nat): seq<Chunk>
    decreases |bytes| - offset
  {
    if offset >= |bytes| then []
    else
      var end := Min(|bytes|, offset + MAX_TERMINAL_CHUNK_BYTES);
      [Chunk(offset, bytes[offset..end])] + ChunksFrom(bytes, offset + MAX_TERMINAL_CHUNK_BYTES)
  }

  /** The upload loop of the browser; the sequence number of a frame is its index. */
  method SendFile(bytes: Bytes, resumeOffset: nat) returns (sent: seq<Chunk>)
    ensures sent == ChunksFrom(bytes, resumeOffset)
  {
    sent := [];
    var offset := resumeOffset;
    while offset < |bytes|
      invariant ChunksFrom(bytes, resumeOffset) == sent + ChunksFrom(bytes, offset)
      decreases |bytes| - offset
    {
      var chunk := bytes[offset..Min(|bytes|, offset + MAX_TERMINAL_CHUNK_BYTES)];
      sent := sent + [Chunk(offset, chunk)];
      offset := offset + MAX_TERMINAL_CHUNK_BYTES;
    }
  }

  function FrameOf(id: TransferId, c: Chunk): Event { Frame(id, c.offset, c.payload, Works) }

  function FramesOf(id: TransferId, chunks: seq<Chunk>): seq<Event> {
    if chunks == [] then [] else [FrameOf(id, chunks[0])] + FramesOf(id, chunks[1..])
  }

  /** The events of transfer id, in order. */
  function Mine(events: seq<Event>, id: TransferId): seq<Event> {
    if events == [] then []
    else
      var e := events[|events| - 1];
      Mine(events[..|events| - 1], id) + if !e.SessionCloses? && e.id == id then [e] else []
  }

  ghost predicate SameAt<T>(a: map<TransferId, T>, b: map<TransferId, T>, id: TransferId) {
    (id in a <==> id in b) && (id in a ==> a[id] == b[id])
  }

  ghost predicate SameEngine(a: Engine, b: Engine, id: TransferId) {
    SameAt(a.uploads, b.uploads, id) && SameAt(a.closed, b.closed, id)
  }

  /** The layers know the same about one transfer. */
  ghost predicate SameFor(a: State, b: State, id: TransferId) {
    SameAt(a.transfers, b.transfers, id) && SameEngine(a.engine, b.engine, id)
  }

  /** An event of another transfer changes nothing for id. */
  lemma OtherStep(st: State, e: Event, id: TransferId)
    requires !e.SessionCloses? && e.id != id
    ensures SameFor(Step(st, e).0, st, id)
  {
    hide EngineUpload;
    if e.Start? {
      EngineEffect(st.engine, e.id, e.path, 0, [], true, e.remote);
    } else if e.Frame? && e.id in st.transfers {
      var transfer := st.transfers[e.id];
      EngineEffect(st.engine, e.id, transfer.path, transfer.offset, e.payload, transfer.offset + |e.payload| == transfer.size, e.remote);
    }
  }

  lemma OwnEngineStep(a: Engine, b: Engine, id: TransferId, path: string, offset: nat, chunk: Bytes, done: bool, remote: Remote)
    requires SameEngine(a, b, id)
    ensures var x, y := EngineUpload(a, id, path, offset, chunk, done, remote), EngineUpload(b, id, path, offset, chunk, done, remote);
            x.1 == y.1 && SameEngine(x.0, y.0, id)
  {
  }

  lemma OwnStep(a: State, b: State, e: Event)
    requires !e.SessionCloses? && SameFor(a, b, e.id)
    ensures SameFor(Step(a, e).0, Step(b, e).0, e.id)
  {
    hide EngineUpload;
    if e.Start? {
      OwnEngineStep(a.engine, b.engine, e.id, e.path, 0, [], true, e.remote);
    } else if e.Frame? && e.id in a.transfers {
      var transfer := a.transfers[e.id];
      OwnEngineStep(a.engine, b.engine, e.id, transfer.path, transfer.offset, e.payload, transfer.offset + |e.payload| == transfer.size, e.remote);
    }
  }

  /** Transfers do not interfere: for id, a run is as good as the run of its own events. */
  lemma {:induction false} Projection(events: seq<Event>, id: TransferId)
    requires forall i :: 0 <= i < |events| ==> !events[i].SessionCloses?
    ensures SameFor(After(events), After(Mine(events, id)), id)
  {
    if events != [] {
      var before, e := events[..|events| - 1], events[|events| - 1];
      assert events == before + [e];
      Projection(before, id);
      OneMore(before, e);
      if e.id == id {
        OneMore(Mine(before, id), e);
        OwnStep(After(before), After(Mine(before, id)), e);
      } else {
        OtherStep(After(before), e, id);
        assert Mine(events, id) == Mine(before, id);
      }
    }
  }

  /** The transfer is under way: `offset` bytes were acknowledged and are in the open stream. */
  ghost predicate UnderWay(st: State, id: TransferId, path: string, bytes: Bytes, offset: nat) {
    && offset <= |bytes| && id in st.transfers && st.transfers[id] == Transfer(path, |bytes|, offset)
    && (offset > 0 ==> id in st.engine.uploads && st.engine.uploads[id] == UploadState(path, offset, bytes[..offset]))
  }

  lemma ChunkAccepted(st: State, id: TransferId, path: string, bytes: Bytes, offset: nat)
    requires id != "" && UnderWay(st, id, path, bytes, offset) && offset < |bytes|
    ensures var end := Min(|bytes|, offset + MAX_TERMINAL_CHUNK_BYTES);
            var (st', reply) := HandleFrame(st, id, offset, bytes[offset..end], Works);
            && reply == Progress(end, end == |bytes|)
            && if end == |bytes| then id in st'.engine.closed && st'.engine.closed[id] == bytes else UnderWay(st', id, path, bytes, end)
  {
    var end := Min(|bytes|, offset + MAX_TERMINAL_CHUNK_BYTES);
    assert bytes[..offset] + bytes[offset..end] == bytes[..end];
    if end == |bytes| { assert bytes[..end] == bytes; }
    if offset == 0 { assert [] + bytes[offset..end] == bytes[..end]; }
  }

  /** The frames still to be sent, one chunk at a time. */
  lemma NextFrame(id: TransferId, bytes: Bytes, offset: nat)
    requires offset < |bytes|
    ensures var end := Min(|bytes|, offset + MAX_TERMINAL_CHUNK_BYTES);
            FramesOf(id, ChunksFrom(bytes, offset)) ==
            [FrameOf(id, Chunk(offset, bytes[offset..end]))] + FramesOf(id, ChunksFrom(bytes, end))
  {
    var end := Min(|bytes|, offset + MAX_TERMINAL_CHUNK_BYTES);
    var chunks, next := ChunksFrom(bytes, offset), offset + MAX_TERMINAL_CHUNK_BYTES;
    assert chunks[1..] == ChunksFrom(bytes, next);
    if end < next { assert ChunksFrom(bytes, end) == [] == ChunksFrom(bytes, next); }
  }

  lemma NoMoreFrames(id: TransferId, bytes: Bytes)
    ensures FramesOf(id, ChunksFrom(bytes, |bytes|)) == []
  {
  }

  lemma {:induction false} LoopCompletes(before: seq<Event>, id: TransferId, path: string, bytes: Bytes, offset: nat)
    requires id != "" && UnderWay(After(before), id, path, bytes, offset) && offset < |bytes|
    ensures var events := before + FramesOf(id, ChunksFrom(bytes, offset));
            Completes(events) && id in After(events).engine.closed && After(events).engine.closed[id] == bytes
    decreases |bytes| - offset
  {
    hide UnderWay, After, HandleFrame, FramesOf, ChunksFrom, EngineUpload, LastReply;
    var end := Min(|bytes|, offset + MAX_TERMINAL_CHUNK_BYTES);
    var frame := FrameOf(id, Chunk(offset, bytes[offset..end]));
    ChunkAccepted(After(before), id, path, bytes, offset);
    OneMore(before, frame);
    NextFrame(id, bytes, offset);
    assert before + FramesOf(id, ChunksFrom(bytes, offset)) == before + [frame] + FramesOf(id, ChunksFrom(bytes, end));
    if end < |bytes| {
      LoopCompletes(before + [frame], id, path, bytes, end);
    } else {
      NoMoreFrames(id, bytes);
      assert before + [frame] + [] == before + [frame];
    }
  }

  function Started(id: TransferId, path: string, bytes: Bytes): seq<Event> { [Start(id, path, |bytes|, Works)] }

  /** The offset the client is told to resume from. */
  function ResumeOffset(reply: Reply): nat { if reply.Progress? then reply.offset else 0 }

  /** A started upload is answered with offset 0, and completed at once exactly when there is nothing to send. */
  lemma StartAnswered(id: TransferId, path: string, bytes: Bytes)
    requires id != ""
    ensures LastReply(Started(id, path, bytes)) == Progress(0, |bytes| == 0)
  {
    OneMore([], Start(id, path, |bytes|, Works));
    assert [] + Started(id, path, bytes) == Started(id, path, bytes);
  }

  /** When no write fails the client's loop brings any file to completion, whatever other transfers do
      in between; it starts at the offset it was told. */
  lemma ClientCompletes(events: seq<Event>, id: TransferId, path: string, bytes: Bytes)
    requires id != "" && forall i :: 0 <= i < |events| ==> !events[i].SessionCloses?
    requires Mine(events, id) == Started(id, path, bytes) + FramesOf(id, ChunksFrom(bytes, ResumeOffset(LastReply(Started(id, path, bytes)))))
    ensures Completes(Mine(events, id))
    ensures id in After(events).engine.closed && After(events).engine.closed[id] == bytes
  {
    StartAnswered(id, path, bytes);
    Projection(events, id);
    var start := Start(id, path, |bytes|, Works);
    OneMore([], start);
    assert [] + [start] == [start];
    if bytes == [] {
      assert Mine(events, id) == [start];
      var nothing: Bytes := [];
      assert nothing + nothing == nothing;
    } else {
      LoopCompletes([start], id, path, bytes, 0);
    }
  }
}

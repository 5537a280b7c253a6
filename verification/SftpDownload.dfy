/** Download across three layers: the engine's cursor (apps/worker/src/ssh/ssh2-engine.ts), the frames
  cut by the session object (apps/worker/src/durable/ssh-session.ts) and the browser's reassembly
  buffer (apps/web/src/components/FileWorkspace.tsx). */
module SftpDownload {
  import opened Common

  const MAX_DOWNLOAD_BYTES := 100 * 1024 * 1024
  const MAX_TERMINAL_CHUNK_BYTES := 64 * 1024

  datatype Frame = Frame(offset: nat, payload: Bytes)

  function Concat(chunks: seq<Bytes>): Bytes {
    if chunks == [] then [] else Concat(chunks[..|chunks| - 1]) + chunks[|chunks| - 1]
  }

  /** The bytes carried by a sequence of frames. */
  function Payloads(frames: seq<Frame>): Bytes {
    if frames == [] then [] else Payloads(frames[..|frames| - 1]) + frames[|frames| - 1].payload
  }

  /** The frames start at `from`, have 1 to 65536 bytes each and leave no gap. */
  ghost predicate Contiguous(frames: seq<Frame>, from: nat) {
    forall k :: 0 <= k < |frames| ==>
      1 <= |frames[k].payload| <= MAX_TERMINAL_CHUNK_BYTES && frames[k].offset == from + |Payloads(frames[..k])|
  }

  lemma AppendFrame(frames: seq<Frame>, f: Frame, from: nat)
    requires Contiguous(frames, from) && 1 <= |f.payload| <= MAX_TERMINAL_CHUNK_BYTES && f.offset == from + |Payloads(frames)|
    ensures Contiguous(frames + [f], from) && Payloads(frames + [f]) == Payloads(frames) + f.payload
  {
    assert (frames + [f])[..|frames|] == frames;
    forall k | 0 <= k < |frames| ensures (frames + [f])[..k] == frames[..k] {}
  }

  /** The `onChunk` callback of `startDownload`: one chunk of the stream becomes frames. */
  method EmitChunk(chunk: Bytes, offset: nat, sent: seq<Frame>, ghost from: nat) returns (frames: seq<Frame>)
    requires Contiguous(sent, from) && offset == from + |Payloads(sent)|
    ensures sent <= frames && Contiguous(frames, from) && Payloads(frames) == Payloads(sent) + chunk
  {
    hide Contiguous, Payloads;
    frames := sent;
    var cursor := 0;
    assert Payloads(sent) + chunk[..0] == Payloads(sent);
    while cursor < |chunk|
      invariant 0 <= cursor
      invariant sent <= frames && Contiguous(frames, from)
      invariant Payloads(frames) == Payloads(sent) + chunk[..Min(|chunk|, cursor)]
      decreases |chunk| - cursor
    {
      var end := Min(|chunk|, cursor + MAX_TERMINAL_CHUNK_BYTES);
      var part := chunk[cursor..end];
      assert chunk[..end] == chunk[..cursor] + part;
      AppendFrame(frames, Frame(offset + cursor, part), from);
      frames := frames + [Frame(offset + cursor, part)];
      cursor := cursor + MAX_TERMINAL_CHUNK_BYTES;
    }
    assert chunk[..|chunk|] == chunk;
  }

  datatype DownloadResult = Refused | Done(length: nat, cursor: nat)

  /** `SSH2Engine.download` with the callback above.  `chunks` is what the remote stream yields: the
      requested range, or a prefix of it, cut in any way.  No length means to the end of the file. */
  method Download(size: nat, offset: int, requested: Option<int>, chunks: seq<Bytes>)
    returns (r: DownloadResult, frames: seq<Frame>)
    ensures r.Refused? <==>
            offset < 0 || offset > size || (requested.Some? && requested.value < 0) ||
            Min(size - offset, requested.GetOr(size - offset)) > MAX_DOWNLOAD_BYTES
    ensures r.Refused? ==> frames == []
    ensures r.Done? ==> r.length == Min(size - offset, requested.GetOr(size - offset))
    ensures r.Done? ==> Contiguous(frames, offset) && r.cursor == offset + |Payloads(frames)|
    ensures r.Done? ==> Payloads(frames) == if r.length == 0 then [] else Concat(chunks)
  {
    frames := [];
    if offset < 0 || offset > size { return Refused, []; }
    var remaining := size - offset;
    var length := if requested.None? then remaining else Min(remaining, requested.value);
    if length < 0 || length > MAX_DOWNLOAD_BYTES { return Refused, []; }
    if length == 0 { return Done(0, offset), []; }
    var cursor := offset;
    assert chunks[..0] == [];
    for i := 0 to |chunks|
      invariant Contiguous(frames, offset) && cursor == offset + |Payloads(frames)|
      invariant Payloads(frames) == Concat(chunks[..i])
    {
      assert chunks[..i + 1][..i] == chunks[..i];
      frames := EmitChunk(chunks[i], cursor, frames, offset);
      cursor := cursor + |chunks[i]|;
    }
    assert chunks[..|chunks|] == chunks;
    return Done(length, cursor), frames;
  }

  // ---------------------------------------------------------------- the client's buffer

  /** A transfer in progress, or the content shown when it is over. */
  datatype Client = Receiving(bytes: Bytes, received: nat) | Shown(content: Bytes)

  /** The `transfer-ready` message: an empty file is shown at once. */
  function Ready(totalBytes: nat): Client {
    if totalBytes == 0 then Shown([]) else Receiving(seq(totalBytes, _ => 0), 0)
  }

  function OnFrame(c: Client, f: Frame): Client {
    if c.Shown? || f.offset != c.received || f.offset + |f.payload| > |c.bytes| then c
    else
      var bytes := c.bytes[..f.offset] + f.payload + c.bytes[f.offset + |f.payload|..];
      var received := c.received + |f.payload|;
      if received == |bytes| then Shown(bytes) else Receiving(bytes, received)
  }

  class DownloadBuffer {
    var bytes: array<Byte>
    var received: nat
    var content: Option<Bytes>

    ghost predicate Valid()
      reads this, bytes
    {
      content.None? ==> received < bytes.Length
    }

    ghost function Abstract(): Client
      reads this, bytes
    {
      if content.Some? then Shown(content.value) else Receiving(bytes[..], received)
    }

    constructor (totalBytes: nat)
      ensures Valid() && Abstract() == Ready(totalBytes) && fresh(bytes)
    {
      bytes := new Byte[totalBytes](_ => 0);
      received := 0;
      content := if totalBytes == 0 then Some([]) else None;
    }

    method Receive(offset: nat, payload: Bytes)
      requires Valid()
      modifies this, bytes
      ensures Valid() && bytes == old(bytes) && Abstract() == OnFrame(old(Abstract()), Frame(offset, payload))
    {
      if content.Some? || offset != received || offset + |payload| > bytes.Length { return; }
      forall i | 0 <= i < |payload| {
        bytes[offset + i] := payload[i];
      }
      assert bytes[..] == old(bytes[..offset]) + payload + old(bytes[offset + |payload|..]);
      received := received + |payload|;
      if received == bytes.Length { content := Some(bytes[..]); }
    }
  }

  function ReceiveAll(c: Client, frames: seq<Frame>): Client {
    if frames == [] then c else OnFrame(ReceiveAll(c, frames[..|frames| - 1]), frames[|frames| - 1])
  }

  /** The buffer holds a prefix of the file, or the whole file is shown. */
  ghost predicate HoldsPrefix(c: Client, file: Bytes) {
    match c
    case Receiving(bytes, received) => |bytes| == |file| && received < |file| && bytes[..received] == file[..received]
    case Shown(content) => content == file
  }

  predicate IsSlice(f: Frame, file: Bytes) {
    f.offset + |f.payload| <= |file| ==> f.payload == file[f.offset..f.offset + |f.payload|]
  }

  lemma ReceivePrefix(c: Client, f: Frame, file: Bytes)
    requires HoldsPrefix(c, file) && IsSlice(f, file)
    ensures HoldsPrefix(OnFrame(c, f), file)
  {
    if c.Receiving? && f.offset == c.received && f.offset + |f.payload| <= |file| {
      var end := f.offset + |f.payload|;
      var bytes := c.bytes[..f.offset] + f.payload + c.bytes[end..];
      assert bytes[..end] == c.bytes[..f.offset] + f.payload;
      assert file[..end] == file[..f.offset] + f.payload;
      if end == |file| { assert bytes[..end] == bytes && file[..end] == file; }
    }
  }

  /** Whatever frames of the file arrive, in any order and any number of times, the buffer is a prefix
      of the file, and what is finally shown is the file. */
  lemma {:induction false} AlwaysPrefix(frames: seq<Frame>, file: Bytes)
    requires forall k :: 0 <= k < |frames| ==> IsSlice(frames[k], file)
    ensures HoldsPrefix(ReceiveAll(Ready(|file|), frames), file)
  {
    if frames != [] {
      AlwaysPrefix(frames[..|frames| - 1], file);
      ReceivePrefix(ReceiveAll(Ready(|file|), frames[..|frames| - 1]), frames[|frames| - 1], file);
    }
  }

  lemma {:induction false} FramesAreSlices(frames: seq<Frame>, file: Bytes, k: nat)
    requires Contiguous(frames, 0) && Payloads(frames) <= file && k < |frames|
    ensures frames[k].offset + |frames[k].payload| <= |file| && IsSlice(frames[k], file)
  {
    hide Contiguous, Payloads;
    var before, last := frames[..|frames| - 1], frames[|frames| - 1];
    LastFrame(frames);
    assert Payloads(frames)[last.offset..] == last.payload;
    if k < |before| { FramesAreSlices(before, file, k); }
  }

  lemma LastFrame(frames: seq<Frame>)
    requires frames != [] && Contiguous(frames, 0)
    ensures var before, last := frames[..|frames| - 1], frames[|frames| - 1];
            Contiguous(before, 0) && last.offset == |Payloads(before)| && Payloads(frames) == Payloads(before) + last.payload
  {
    hide Payloads;
    var before, last := frames[..|frames| - 1], frames[|frames| - 1];
    forall i | 0 <= i < |before| ensures before[..i] == frames[..i] {}
    MorePayload(frames);
  }

  lemma MorePayload(frames: seq<Frame>)
    requires frames != []
    ensures Payloads(frames) == Payloads(frames[..|frames| - 1]) + frames[|frames| - 1].payload
  {
  }

  /** Contiguous frames advance the client by exactly the bytes they carry. */
  lemma {:induction false} ContiguousAdvance(frames: seq<Frame>, file: Bytes)
    requires Contiguous(frames, 0) && Payloads(frames) <= file
    ensures var c := ReceiveAll(Ready(|file|), frames);
            if |Payloads(frames)| == |file| then c == Shown(file)
            else c.Receiving? && |c.bytes| == |file| && c.received == |Payloads(frames)|
  {
    forall k | 0 <= k < |frames| ensures IsSlice(frames[k], file) { FramesAreSlices(frames, file, k); }
    AlwaysPrefix(frames, file);
    if frames != [] {
      var before, last := frames[..|frames| - 1], frames[|frames| - 1];
      assert Payloads(before) <= file by { assert Payloads(before) == file[..|Payloads(before)|]; }
      forall i | 0 <= i < |before| ensures before[..i] == frames[..i] {}
      ContiguousAdvance(before, file);
      FramesAreSlices(frames, file, |frames| - 1);
    }
  }

  /** However the stream is cut, contiguous frames that carry the file show exactly the file, and frames
      that carry less of it leave the client waiting with the received prefix. */
  lemma Reassembled(frames: seq<Frame>, file: Bytes)
    requires Contiguous(frames, 0) && Payloads(frames) <= file
    ensures ReceiveAll(Ready(|file|), frames) == Shown(file) <==> Payloads(frames) == file
    ensures HoldsPrefix(ReceiveAll(Ready(|file|), frames), file)
  {
    ContiguousAdvance(frames, file);
    if |Payloads(frames)| == |file| { assert Payloads(frames) == file[..|file|] == file; }
    forall k | 0 <= k < |frames| ensures IsSlice(frames[k], file) { FramesAreSlices(frames, file, k); }
    AlwaysPrefix(frames, file);
  }
}

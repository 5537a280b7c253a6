/** Which upload calls are accepted, exactly, and that the others write nothing
  (apps/worker/src/ssh/ssh2-engine.ts and apps/worker/src/durable/ssh-session.ts). */
module SftpRefusals {
  import opened Common
  import opened SftpUpload

  /** The engine expects this call: the first one of an upload, or the next one of a known upload. */
  predicate Expected(e: Engine, id: TransferId, path: string, offset: nat) {
    offset == 0 || (id in e.uploads && e.uploads[id].path == path && e.uploads[id].offset == offset)
  }

  /** The remote side does its part of the call. */
  predicate RemoteServes(chunk: Bytes, done: bool, remote: Remote) {
    remote != NoSftp && (remote == WriteFails ==> chunk == []) && (remote == EndFails ==> !done)
  }

  /** An engine call succeeds exactly when the identifier is given, the chunk is at most 256 KiB, the call
      is the expected one and the remote side serves it. */
  lemma EngineAcceptsIff(e: Engine, id: TransferId, path: string, offset: nat, chunk: Bytes, done: bool, remote: Remote)
    ensures EngineUpload(e, id, path, offset, chunk, done, remote).1.Ok? <==>
            id != "" && |chunk| <= 262_144 && Expected(e, id, path, offset) && RemoteServes(chunk, done, remote)
  {
  }

  /** A call that the engine did not expect, or that is too large, changes nothing at all. */
  lemma UnexpectedChangesNothing(e: Engine, id: TransferId, path: string, offset: nat, chunk: Bytes, done: bool, remote: Remote)
    requires id == "" || |chunk| > 262_144 || !Expected(e, id, path, offset) || remote == NoSftp
    ensures EngineUpload(e, id, path, offset, chunk, done, remote) == (e, Err)
  {
  }

  /** A frame is accepted exactly when it belongs to a started transfer, comes at its offset, fits into the
      declared size and the engine accepts it; then the answer is the offset behind it. */
  lemma FrameAcceptedIff(st: State, id: TransferId, offset: nat, payload: Bytes, remote: Remote)
    ensures var reply := HandleFrame(st, id, offset, payload, remote).1;
            && (reply.Progress? <==>
                  && id in st.transfers && st.transfers[id].offset == offset && offset + |payload| <= st.transfers[id].size
                  && EngineUpload(st.engine, id, st.transfers[id].path, offset, payload, offset + |payload| == st.transfers[id].size, remote).1.Ok?)
            && (reply.Progress? ==> reply == Progress(offset + |payload|, offset + |payload| == st.transfers[id].size))
            && (!reply.Progress? ==> reply == Error)
  {
    hide EngineUpload;
    if id in st.transfers {
      EngineEffect(st.engine, id, st.transfers[id].path, offset, payload, offset + |payload| == st.transfers[id].size, remote);
    }
  }

  /** A frame that is repeated, out of order or too long is refused and changes nothing. */
  lemma WrongFrameRefused(st: State, id: TransferId, offset: nat, payload: Bytes, remote: Remote)
    requires id !in st.transfers || st.transfers[id].offset != offset || offset + |payload| > st.transfers[id].size
    ensures HandleFrame(st, id, offset, payload, remote) == (st, Error)
  {
  }

  /** A frame that was accepted is refused when it comes again, unless it carried nothing. */
  lemma RepeatedFrameRefused(st: State, id: TransferId, offset: nat, payload: Bytes, remote: Remote, again: Remote)
    requires payload != [] && HandleFrame(st, id, offset, payload, remote).1.Progress?
    ensures var st' := HandleFrame(st, id, offset, payload, remote).0;
            HandleFrame(st', id, offset, payload, again) == (st', Error)
  {
    FrameAcceptedIff(st, id, offset, payload, remote);
    EngineEffect(st.engine, id, st.transfers[id].path, offset, payload, offset + |payload| == st.transfers[id].size, remote);
    hide EngineUpload;
  }

  /** A failed stream forgets its upload and no other; what was ended stays. */
  lemma StreamErrorForgets(st: State, id: TransferId)
    ensures var st' := Step(st, StreamError(id)).0;
            && id !in st'.engine.uploads && st'.transfers == st.transfers && st'.engine.closed == st.engine.closed
            && forall other :: other != id ==> SameAt(st.engine.uploads, st'.engine.uploads, other)
  {
  }

  /** After the session closed every frame is refused until an upload is started again. */
  lemma CloseRefuses(st: State, id: TransferId, offset: nat, payload: Bytes, remote: Remote)
    ensures var st' := Step(st, SessionCloses).0;
            && st'.engine.uploads == map[] && st'.engine.closed == st.engine.closed
            && HandleFrame(st', id, offset, payload, remote) == (st', Error)
  {
  }

  /** A started upload waits at offset 0 for the declared size, whatever was stored under its identifier. */
  lemma StartDeclares(st: State, id: TransferId, path: string, size: nat, remote: Remote)
    requires size > 0
    ensures StartUpload(st, id, path, size, remote) == (State(st.transfers[id := Transfer(path, size, 0)], st.engine), Progress(0, false))
  {
  }

  /** An empty upload is completed at once if the remote side can create and end it, and leaves an empty
      stream; otherwise the client is told of an error. */
  lemma EmptyUpload(st: State, id: TransferId, path: string, remote: Remote)
    requires id != ""
    ensures var (st', reply) := StartUpload(st, id, path, 0, remote);
            if remote == Works || remote == WriteFails then
              reply == Progress(0, true) && id !in st'.transfers && id in st'.engine.closed && st'.engine.closed[id] == []
            else reply == Error && st'.engine.closed == st.engine.closed
  {
  }
}

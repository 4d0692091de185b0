/** The iterator that cuts the benchmark payload into bounded chunks. */
module ChunkStreaming {
  import opened Basics
  import opened Termbench

  // ----- what the chunks must be -----

  function Flatten(chunks: seq<Bytes>): Bytes {
    if chunks == [] then [] else chunks[0] + Flatten(chunks[1..])
  }

  /** Every chunk is full except that the last may be shorter; none is empty. */
  ghost predicate WellCut(chunks: seq<Bytes>, size: nat) {
    && (forall i :: 0 <= i < |chunks| ==> 0 < |chunks[i]| <= size)
    && (forall i :: 0 <= i < |chunks| - 1 ==> |chunks[i]| == size)
  }

  function Cut(payload: Bytes, size: nat): seq<Bytes>
    requires size > 0
    decreases |payload|
  {
    if payload == [] then []
    else if |payload| <= size then [payload]
    else [payload[..size]] + Cut(payload[size..], size)
  }

  lemma {:induction false} PrependFull(chunk: Bytes, chunks: seq<Bytes>, size: nat)
    requires size > 0 && |chunk| == size && WellCut(chunks, size)
    ensures WellCut([chunk] + chunks, size) && Flatten([chunk] + chunks) == chunk + Flatten(chunks)
  {
    var all := [chunk] + chunks;
    assert all[1..] == chunks;
    forall i | 0 <= i < |all| ensures 0 < |all[i]| <= size && (i < |all| - 1 ==> |all[i]| == size) {
      if i > 0 {
        assert all[i] == chunks[i - 1];
      }
    }
  }

  lemma {:induction false} CutIsWellCut(payload: Bytes, size: nat)
    requires size > 0
    ensures WellCut(Cut(payload, size), size) && Flatten(Cut(payload, size)) == payload
    decreases |payload|
  {
    if |payload| > size {
      CutIsWellCut(payload[size..], size);
      PrependFull(payload[..size], Cut(payload[size..], size), size);
      assert payload == payload[..size] + payload[size..];
    } else if payload != [] {
      assert [payload][1..] == [] && payload + [] == payload;
      assert Flatten([payload]) == payload + Flatten([payload][1..]);
    }
  }

  /** There is only one way to cut a payload well. */
  lemma {:induction false} WellCutIsCut(chunks: seq<Bytes>, size: nat)
    requires size > 0 && WellCut(chunks, size)
    ensures Cut(Flatten(chunks), size) == chunks
    decreases |chunks|
  {
    if chunks != [] {
      var rest := chunks[1..];
      WellCutIsCut(rest, size);
      var payload := Flatten(chunks);
      if rest == [] {
        assert payload == chunks[0];
      } else {
        assert payload[..size] == chunks[0] && payload[size..] == Flatten(rest);
        assert |Flatten(rest)| >= |rest[0]|;
      }
    }
  }

  lemma {:induction false} EmptyLeft(s: Bytes)
    ensures [] + s == s && s + [] == s
  {
  }

  /** Behind a frame that is used up the next one follows. */
  lemma {:induction false} NextFrame(variant: Variant, frame: nat, next: nat, frames: nat, used: Bytes, pos: nat)
    requires frame < frames && next == frame + 1 && pos == |used|
    ensures used[pos..] + Frames(variant, frame, frames) == Frame(variant, frame)[0..] + Frames(variant, next, frames)
  {
    FramesCons(variant, frame, next, frames);
    EmptyLeft(Frames(variant, frame, frames));
    assert used[pos..] == [] && Frame(variant, frame)[0..] == Frame(variant, frame);
  }

  // ----- the iterator -----

  class TermbenchChunks {
    const variant: Variant
    const frames: nat
    const chunkBytes: nat
    var nextFrame: nat
    var frameBuf: Bytes
    var framePos: nat
    var pending: Bytes
    var done: bool

    ghost predicate Valid()
      reads this
    {
      && chunkBytes > 0 && nextFrame <= frames && framePos <= |frameBuf| && pending == []
      && (done ==> Remaining() == [])
    }

    /** What the iterator has still to yield. */
    ghost function Remaining(): Bytes
      requires nextFrame <= frames && framePos <= |frameBuf|
      reads this
    {
      pending + Unread()
    }

    /** The rest of the current frame and the frames after it. */
    ghost function Unread(): Bytes
      requires nextFrame <= frames && framePos <= |frameBuf|
      reads this
    {
      frameBuf[framePos..] + Frames(variant, nextFrame, frames)
    }

    constructor (variant: Variant, frames: nat, chunkBytes: nat)
      requires chunkBytes > 0
      ensures Valid() && this.chunkBytes == chunkBytes
      ensures Remaining() == Frames(variant, 0, frames)
    {
      this.variant, this.frames, this.chunkBytes := variant, frames, chunkBytes;
      nextFrame, frameBuf, framePos, pending, done := 0, [], 0, [], false;
    }

    /** Starts the next frame once the current one is used up. */
    method LoadFrame()
      requires nextFrame < frames && framePos == |frameBuf|
      modifies this
      ensures nextFrame == old(nextFrame) + 1 <= frames && framePos == 0 <= |frameBuf|
      ensures pending == old(pending) && done == old(done)
      ensures Unread() == old(Unread())
    {
      var next := nextFrame + 1;
      NextFrame(variant, nextFrame, next, frames, frameBuf, framePos);
      frameBuf := FillFrame(variant, nextFrame);
      nextFrame := next;
      framePos := 0;
    }

    /** Moves as much of the current frame as fits. */
    method TakeBytes()
      requires nextFrame <= frames && framePos <= |frameBuf| && |pending| < chunkBytes
      modifies this
      ensures nextFrame == old(nextFrame) && frameBuf == old(frameBuf) && done == old(done)
      ensures old(framePos) <= framePos <= |frameBuf| && |pending| <= chunkBytes
      ensures old(framePos) < |frameBuf| ==> old(framePos) < framePos
      ensures Remaining() == old(Remaining())
    {
      var space := chunkBytes - |pending|;
      var take := if |frameBuf| - framePos <= space then |frameBuf| - framePos else space;
      var next := framePos + take;
      assert frameBuf[framePos..] == frameBuf[framePos..next] + frameBuf[next..];
      Associative(frameBuf[framePos..next], frameBuf[next..], Frames(variant, nextFrame, frames));
      Associative(pending, frameBuf[framePos..next], frameBuf[next..] + Frames(variant, nextFrame, frames));
      pending := pending + frameBuf[framePos..next];
      framePos := next;
    }

    /** Collects bytes until a chunk is full or nothing is left to read. */
    method FillPending()
      requires Valid()
      modifies this
      ensures nextFrame <= frames && framePos <= |frameBuf| && |pending| <= chunkBytes && done == old(done)
      ensures |pending| < chunkBytes ==> nextFrame >= frames && framePos >= |frameBuf|
      ensures Remaining() == old(Remaining())
    {
      while |pending| < chunkBytes
        invariant nextFrame <= frames && framePos <= |frameBuf| && |pending| <= chunkBytes && done == old(done)
        invariant Remaining() == old(Remaining())
        decreases frames - nextFrame, |frameBuf| - framePos
      {
        if framePos >= |frameBuf| {
          if nextFrame >= frames {
            break;
          }
          LoadFrame();
        }
        TakeBytes();
        if |pending| == chunkBytes {
          break;
        }
      }
    }

    /** The next chunk is a full one while enough is left, then the rest, then nothing. */
    method Next() returns (chunk: Option<Bytes>)
      requires Valid()
      modifies this
      ensures Valid()
      ensures chunk.None? <==> old(Remaining()) == []
      ensures chunk.None? ==> Remaining() == []
      ensures chunk.Some? ==> IsFront(chunk.value, old(Remaining()), Remaining(), chunkBytes)
    {
      if done {
        return None;
      }
      FillPending();
      if |pending| < chunkBytes {
        assert frameBuf[framePos..] == [] && Unread() == [];
        EmptyLeft(pending);
      }
      if pending == [] {
        if nextFrame >= frames && framePos >= |frameBuf| {
          done := true;
        }
        return None;
      }
      EmptyLeft(Unread());
      chunk := Some(pending);
      pending := [];
    }
  }

  /** `chunk` is the front of `all`: a full chunk, or everything when that is less. */
  ghost predicate IsFront(chunk: Bytes, all: Bytes, rest: Bytes, size: nat) {
    && chunk != [] && |chunk| == (if |all| <= size then |all| else size)
    && all == chunk + rest
  }

  lemma {:induction false} CutFront(chunk: Bytes, all: Bytes, rest: Bytes, size: nat)
    requires size > 0 && IsFront(chunk, all, rest, size)
    ensures Cut(all, size) == [chunk] + Cut(rest, size)
    ensures |rest| < |all|
  {
    if |all| <= size {
      assert rest == [] && all == chunk;
    } else {
      assert all[..size] == chunk && all[size..] == rest;
    }
  }

  /** Running the iterator to its end, which it reaches, yields the one well-cut payload. */
  method DrainAll(source: TermbenchChunks) returns (chunks: seq<Bytes>)
    requires source.Valid()
    modifies source
    ensures source.Valid() && source.Remaining() == []
    ensures chunks == Cut(old(source.Remaining()), source.chunkBytes)
  {
    chunks := [];
    var more := true;
    while more
      invariant source.Valid() && (!more ==> source.Remaining() == [])
      invariant chunks + Cut(source.Remaining(), source.chunkBytes) == Cut(old(source.Remaining()), source.chunkBytes)
      decreases more, |source.Remaining()|
    {
      ghost var all := source.Remaining();
      var chunk := source.Next();
      if chunk.Some? {
        CutFront(chunk.value, all, source.Remaining(), source.chunkBytes);
        chunks := chunks + [chunk.value];
      } else {
        more := false;
      }
    }
  }

  /** The chunks of the whole payload: they join to its frames in order, for every size. */
  method ChunkAll(variant: Variant, frames: nat, chunkBytes: nat) returns (chunks: seq<Bytes>)
    requires chunkBytes > 0
    ensures Flatten(chunks) == Frames(variant, 0, frames) && WellCut(chunks, chunkBytes)
  {
    var source := new TermbenchChunks(variant, frames, chunkBytes);
    chunks := DrainAll(source);
    CutIsWellCut(Frames(variant, 0, frames), chunkBytes);
  }
}

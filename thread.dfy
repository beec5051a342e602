/**
 * The segmentation worker: the record shared by the video callback and the
 * worker thread, the worker's own `local_data`, and one pass of the worker
 * loop. Locking and sleeping are left out: every call here runs on its own,
 * in the order the caller makes them.
 */
module Worker {
  import opened Bytes
  import opened Wrappers
  import opened Net
  import opened ImgArrays
  import opened ClientSpec
  import opened ClientImpl
  import opened Protocol

  // ---------------------------------------------------------------------------
  // The new-frame check and the assignment after it.

  /** The assignment after the new-frame check. */
  datatype CounterRule =
    | AsWritten   // the counter seen is overwritten by the one remembered
    | Intended    // the counter seen is remembered

  /** Whether the pass idles, and the worker's two counters after the check. */
  datatype Admission = Admission(idle: bool, bufferCounter: uint64, lastBufferCounter: uint64)

  /** The check: idle when the counter seen is the one remembered; otherwise the assignment. */
  function Admit(rule: CounterRule, last: uint64, seen: uint64): (a: Admission)
    ensures a.idle <==> last == seen
    ensures rule == AsWritten ==> a.lastBufferCounter == last
    ensures rule == Intended ==> a.lastBufferCounter == seen
  {
    if last == seen then Admission(true, seen, last)
    else match rule
      case AsWritten => Admission(false, last, last)
      case Intended => Admission(false, seen, seen)
  }

  /** The remembered counter after passes that saw the shared counter take the values `seen`. */
  function LastAfter(rule: CounterRule, last: uint64, seen: seq<uint64>): uint64
    decreases |seen|
  {
    if seen == [] then last else LastAfter(rule, Admit(rule, last, seen[0]).lastBufferCounter, seen[1..])
  }

  /** As written, the remembered counter never moves. */
  lemma {:induction false} AsWrittenNeverAdvances(last: uint64, seen: seq<uint64>)
    ensures LastAfter(AsWritten, last, seen) == last
    decreases |seen|
  {
    if seen != [] {
      AsWrittenNeverAdvances(last, seen[1..]);
    }
  }

  /**
   * Hence, from the zero start of `local_data`, a pass idles exactly when the
   * shared counter is still 0: once a frame has arrived, no pass idles again.
   */
  lemma AsWrittenIdlesOnlyAtZero(seen: seq<uint64>, i: nat)
    requires i < |seen|
    ensures Admit(AsWritten, LastAfter(AsWritten, 0, seen[..i]), seen[i]).idle <==> seen[i] == 0
  {
    AsWrittenNeverAdvances(0, seen[..i]);
  }

  /** So the same frame is sent again: two passes that see the same non-zero counter both go ahead. */
  lemma AsWrittenResends(seen: uint64)
    requires seen != 0
    ensures var a := Admit(AsWritten, 0, seen);
            !a.idle && !Admit(AsWritten, a.lastBufferCounter, seen).idle
  {
  }

  /** With the intended assignment the worker remembers the last counter it saw ... */
  lemma {:induction false} IntendedTracks(last: uint64, seen: seq<uint64>)
    requires seen != []
    ensures LastAfter(Intended, last, seen) == seen[|seen| - 1]
    decreases |seen|
  {
    if |seen| > 1 {
      IntendedTracks(Admit(Intended, last, seen[0]).lastBufferCounter, seen[1..]);
    }
  }

  /** ... so a pass idles exactly when no frame arrived since the previous pass. */
  lemma IntendedIdlesUntilNewFrame(last: uint64, seen: seq<uint64>, i: nat)
    requires 0 < i < |seen|
    ensures Admit(Intended, LastAfter(Intended, last, seen[..i]), seen[i]).idle <==> seen[i] == seen[i - 1]
  {
    IntendedTracks(last, seen[..i]);
  }

  // ---------------------------------------------------------------------------
  // One pass of the worker loop, on values.

  /** How one pass of the worker loop ends. */
  datatype Decision =
    | Exit            // the running flag was read as 0: the loop ends
    | Idle            // no new frame: sleep
    | NoFrame         // the shared frame buffer is NULL: sleep
    | CopyFailed      // the local copy could not be made: the loop ends
    | Missed(rc: int) // the round answered an error: sleep
    | Undefined       // the round's mask loop ran off the buffer
    | Hung            // the round's mask loop spins for ever on a closed connection
    | PublishFailed   // the shared mask could not be allocated: the loop ends
    | Published       // the new mask is shared: sleep

  /** The passes that call the client. */
  predicate CalledClient(d: Decision)
  {
    d.Missed? || d.Undefined? || d.Hung? || d.PublishFailed? || d.Published?
  }

  /** The allocator's answers in one pass: the local copy, the client's mask, the shared mask. */
  datatype Allocs = Allocs(copy: bool, mask: bool, publish: bool)

  /** The record shared by the callback and the worker, as a value. */
  datatype Shared = Shared(bgr: Img, counter: uint64, running: bool, client: ClientState, mask: Img, timestamp: uint64)

  /** The worker's `local_data`, as a value. */
  datatype Local = Local(timestamp: uint64, bgr: Img, counter: uint64, last: uint64, running: bool)

  /** A pass's decision with the state and environment it leaves. */
  datatype Pass = Pass(decision: Decision, shared: Shared, local: Local, env: Env)

  /** Both images hold their sizes, the frame fits a size_t, the client's mask holds mask_size bytes. */
  predicate SharedValid(sh: Shared)
  {
    ImgValid(sh.bgr) && sh.bgr.size < TWO_64 && ImgValid(sh.mask) && ClientValid(sh.client)
  }

  /** The part of a pass before the client is called: a decision when the pass stops there, and `local_data`. */
  datatype Front = Front(stop: Option<Decision>, local: Local)

  /** The part of a pass after the round: the decision, the client, the shared mask and the environment. */
  datatype Back = Back(decision: Decision, client: ClientState, mask: Img, env: Env)

  /**
   * `run_thread`'s loop up to the client call: read the flag and the counter,
   * the new-frame check, then the copy of the shared frame. A pass that goes
   * on holds a replica of the shared frame.
   */
  function FrontSpec(sh: Shared, lo: Local, rule: CounterRule, allocOk: bool): (f: Front)
    requires ImgValid(sh.bgr)
    ensures f.stop.None? ==> sh.bgr.buffer.Some? && f.local.bgr == sh.bgr && f.local.timestamp == sh.timestamp
  {
    var lo1 := lo.(running := sh.running, counter := sh.counter);
    if !lo1.running then Front(Some(Exit), lo1)
    else
      var a := Admit(rule, lo1.last, lo1.counter);
      if a.idle then Front(Some(Idle), lo1)
      else
        var lo2 := lo1.(counter := a.bufferCounter, last := a.lastBufferCounter);
        if sh.bgr.buffer.None? then Front(Some(NoFrame), lo2)
        else
          var c := CopyArraySpec(lo2.bgr, sh.bgr, allocOk);
          CopyArrayReplicates(lo2.bgr, sh.bgr, allocOk);
          if c.rc != 0 then Front(Some(CopyFailed), lo2.(bgr := c.img))
          else Front(None, lo2.(bgr := c.img, timestamp := sh.timestamp))
  }

  /** What a round's result leaves a round that keeps the mask buffer and leaves one on success. */
  predicate RoundValid(r: Round)
  {
    ClientValid(r.state) && (r.outcome == Returned(0) ==> r.state.mask.Some?)
  }

  /** The rest of the loop body given the round's result: skip on an error, otherwise publish the client's mask. */
  function PublishSpec(r: Round, mask: Img, allocOk: bool): (b: Back)
    requires RoundValid(r)
    ensures CalledClient(b.decision) && b.client == r.state && b.env == r.env
  {
    if r.outcome.UndefinedBehaviour? then Back(Undefined, r.state, mask, r.env)
    else if r.outcome.Hangs? then Back(Hung, r.state, mask, r.env)
    else if r.outcome.rc != 0 then Back(Missed(r.outcome.rc), r.state, mask, r.env)
    else
      var m := CopyRawSpec(mask, r.state.mask.value, r.state.maskSize, allocOk);
      Back(if m.rc == 0 then Published else PublishFailed, r.state, m.img, r.env)
  }

  /** One round of the client on the frame, then the rest of the loop body. */
  function BackSpec(client: ClientState, mask: Img, timestamp: uint64, frame: seq<byte>, e: Env, allocs: Allocs): (b: Back)
    requires ClientValid(client) && |frame| < TWO_64
    ensures CalledClient(b.decision)
  {
    var r := RunSpec(client, timestamp, frame, e, allocs.mask);
    RoundKeepsMask(client, timestamp, frame, e, allocs.mask);
    PublishSpec(r, mask, allocs.publish)
  }

  /** One pass of `run_thread`'s loop, under the given rule for the assignment after the new-frame check. */
  function PassSpec(sh: Shared, lo: Local, rule: CounterRule, e: Env, allocs: Allocs): Pass
    requires SharedValid(sh)
  {
    var f := FrontSpec(sh, lo, rule, allocs.copy);
    if f.stop.Some? then Pass(f.stop.value, sh, f.local, e)
    else
      var b := BackSpec(sh.client, sh.mask, f.local.timestamp, f.local.bgr.buffer.value, e, allocs);
      Pass(b.decision, sh.(client := b.client, mask := b.mask), f.local, b.env)
  }

  /** A pass exits exactly when the running flag is clear, and then it only copies the flag and the counter. */
  lemma FrontExitsWhenStopped(sh: Shared, lo: Local, rule: CounterRule, allocOk: bool)
    requires ImgValid(sh.bgr)
    ensures var f := FrontSpec(sh, lo, rule, allocOk);
            (f.stop == Some(Exit) <==> !sh.running) &&
            (!sh.running ==> f.local == lo.(running := false, counter := sh.counter))
  {
  }

  /**
   * A running pass idles exactly when the new-frame check says so, sleeps
   * without a frame exactly when the check passes and the shared buffer is
   * NULL, and leaves the counters as the check sets them.
   */
  lemma FrontFollowsAdmission(sh: Shared, lo: Local, rule: CounterRule, allocOk: bool)
    requires ImgValid(sh.bgr) && sh.running
    ensures var f := FrontSpec(sh, lo, rule, allocOk);
            var a := Admit(rule, lo.last, sh.counter);
            (f.stop == Some(Idle) <==> a.idle) &&
            (f.stop == Some(NoFrame) <==> !a.idle && sh.bgr.buffer.None?) &&
            f.local.counter == a.bufferCounter && f.local.last == a.lastBufferCounter && f.local.running
  {
  }

  /** The local copy fails only when the local array cannot take the frame's size and the allocator fails. */
  lemma FrontCopyFails(sh: Shared, lo: Local, rule: CounterRule, allocOk: bool)
    requires ImgValid(sh.bgr)
    ensures var f := FrontSpec(sh, lo, rule, allocOk);
            f.stop == Some(CopyFailed) ==> !allocOk && !Reusable(lo.bgr, sh.bgr.size) && f.local.bgr.buffer.None?
  {
  }

  /** A failed round changes the client and the environment but leaves the shared mask as it was. */
  lemma PublishSkipsFailedRound(r: Round, mask: Img, allocOk: bool)
    requires RoundValid(r)
    ensures var b := PublishSpec(r, mask, allocOk);
            (r.outcome == UndefinedBehaviour <==> b.decision == Undefined) &&
            (r.outcome == Hangs <==> b.decision == Hung) &&
            (r.outcome.Returned? && r.outcome.rc != 0 <==> b.decision.Missed?) &&
            (b.decision.Missed? ==> r.outcome == Returned(b.decision.rc)) &&
            (r.outcome != Returned(0) ==> b.mask == mask)
  {
  }

  /** A round that returns 0 publishes the client's mask exactly, or leaves no shared mask when allocation fails. */
  lemma PublishCopiesClientMask(r: Round, mask: Img, allocOk: bool)
    requires RoundValid(r) && r.outcome == Returned(0)
    ensures var b := PublishSpec(r, mask, allocOk);
            (b.decision == Published <==> b.mask == Img(r.state.mask, r.state.maskSize)) &&
            (b.decision == PublishFailed ==> b.mask.buffer.None? && !allocOk) &&
            (b.decision == Published || b.decision == PublishFailed)
  {
    var v := r.state.mask.value;
    assert v[..r.state.maskSize] == v;
  }

  /** How a pass is made of its two parts: the front, and when it goes on, the round and the publish. */
  lemma PassParts(sh: Shared, lo: Local, rule: CounterRule, e: Env, allocs: Allocs)
    requires SharedValid(sh)
    ensures var p := PassSpec(sh, lo, rule, e, allocs);
            var f := FrontSpec(sh, lo, rule, allocs.copy);
            p.local == f.local &&
            (f.stop.Some? ==> p == Pass(f.stop.value, sh, f.local, e)) &&
            (f.stop.None? ==>
               sh.bgr.buffer.Some? &&
               var r := RunSpec(sh.client, sh.timestamp, sh.bgr.buffer.value, e, allocs.mask);
               RoundValid(r) &&
               var b := PublishSpec(r, sh.mask, allocs.publish);
               p == Pass(b.decision, sh.(client := b.client, mask := b.mask), f.local, b.env))
  {
    var f := FrontSpec(sh, lo, rule, allocs.copy);
    if f.stop.None? {
      RoundKeepsMask(sh.client, sh.timestamp, sh.bgr.buffer.value, e, allocs.mask);
    }
  }

  /**
   * The pass as a whole: it calls the client exactly when the front goes on,
   * then on a replica of the shared frame with its timestamp; the shared frame,
   * counter, flag and timestamp never change, and a failed round leaves the
   * shared mask alone.
   */
  lemma PassRunsOnCopy(sh: Shared, lo: Local, rule: CounterRule, e: Env, allocs: Allocs)
    requires SharedValid(sh)
    ensures var p := PassSpec(sh, lo, rule, e, allocs);
            SharedValid(p.shared) && p.shared.(client := sh.client, mask := sh.mask) == sh &&
            (CalledClient(p.decision) <==> FrontSpec(sh, lo, rule, allocs.copy).stop.None?) &&
            (!CalledClient(p.decision) ==> p.shared == sh && p.env == e) &&
            (CalledClient(p.decision) ==>
               sh.bgr.buffer.Some? && p.local.bgr == sh.bgr && p.local.timestamp == sh.timestamp &&
               var r := RunSpec(sh.client, sh.timestamp, sh.bgr.buffer.value, e, allocs.mask);
               p.shared.client == r.state && p.env == r.env &&
               (r.outcome != Returned(0) ==> p.shared.mask == sh.mask))
  {
    PassParts(sh, lo, rule, e, allocs);
    var f := FrontSpec(sh, lo, rule, allocs.copy);
    if f.stop.None? {
      var r := RunSpec(sh.client, sh.timestamp, sh.bgr.buffer.value, e, allocs.mask);
      PublishSkipsFailedRound(r, sh.mask, allocs.publish);
      if r.outcome == Returned(0) {
        PublishCopiesClientMask(r, sh.mask, allocs.publish);
      }
    }
  }

  /** `SegmentationThread_update_buffer` on values. */
  function UpdateSpec(sh: Shared, ts: uint64, src: seq<byte>, n: nat, allocOk: bool): (r: Shared)
    requires n <= |src|
  {
    sh.(timestamp := ts, counter := WrapU64(sh.counter + 1), bgr := CopyRawSpec(sh.bgr, src, n, allocOk).img)
  }

  /**
   * An update keeps the record valid and always moves the counter; with the
   * intended assignment it wakes a worker that has caught up.
   */
  lemma UpdateWakesWorker(sh: Shared, lo: Local, ts: uint64, src: seq<byte>, n: nat, allocOk: bool, allocOk': bool)
    requires SharedValid(sh) && sh.running && lo.last == sh.counter && n <= |src| && n < TWO_64
    ensures var u := UpdateSpec(sh, ts, src, n, allocOk);
            SharedValid(u) && u.counter != sh.counter &&
            FrontSpec(u, lo, Intended, allocOk').stop != Some(Idle)
  {
    CopyRawCopies(sh.bgr, src, n, allocOk);
    if sh.counter + 1 == TWO_64 {
      assert WrapU64(sh.counter + 1) == 0;
    }
  }

  /**
   * As written, from the zero start, a pass that went ahead is followed by
   * one that goes ahead again while the shared counter has not moved.
   */
  lemma AsWrittenPassResends(sh: Shared, lo: Local, allocOk: bool, allocOk': bool)
    requires ImgValid(sh.bgr) && sh.running && lo.last == 0 && sh.counter != 0
    ensures var f := FrontSpec(sh, lo, AsWritten, allocOk);
            f.stop != Some(Idle) && FrontSpec(sh, f.local, AsWritten, allocOk').stop != Some(Idle)
  {
    FrontFollowsAdmission(sh, lo, AsWritten, allocOk);
  }

  /** With the intended assignment, the pass after one that went ahead idles while the shared counter has not moved. */
  lemma IntendedPassIdlesOnSameFrame(sh: Shared, lo: Local, allocOk: bool, allocOk': bool)
    requires ImgValid(sh.bgr) && sh.running
    ensures var f := FrontSpec(sh, lo, Intended, allocOk);
            f.stop != Some(Exit) && f.stop != Some(Idle) ==> FrontSpec(sh, f.local, Intended, allocOk').stop == Some(Idle)
  {
    FrontFollowsAdmission(sh, lo, Intended, allocOk);
  }

  // ---------------------------------------------------------------------------
  // The record and the worker's copy as objects.

  /** The worker's `local_data`. */
  class LocalData {
    var timestamp: uint64
    var bgr: ImgArray
    var bufferCounter: uint64
    var lastBufferCounter: uint64
    var isRunning: bool

    /** The fields as a value. */
    ghost function Value(): Local
      reads this, bgr, bgr.buffer
    {
      Local(timestamp, bgr.Value(), bufferCounter, lastBufferCounter, isRunning)
    }

    /** The initialiser at the top of `run_thread`; last_buffer_counter is zero as an omitted member. */
    constructor ()
      ensures fresh(bgr) && bgr.Valid() && Value() == Local(0, Img(None, 0), 0, 0, true)
    {
      timestamp := 0;
      bufferCounter := 0;
      lastBufferCounter := 0;
      isRunning := true;
      bgr := new ImgArray();
    }
  }

  class SegmentationThread {
    var bgr: ImgArray
    var bufferCounter: uint64
    var isRunning: bool
    var client: SegmentationClient
    var mask: ImgArray
    var timestamp: uint64

    /** Three distinct objects whose buffers are distinct; the frame fits a size_t. */
    ghost predicate Valid()
      reads this, bgr, mask, client
    {
      bgr != mask && bgr.Valid() && mask.Valid() && client.Valid() && bgr.size < TWO_64 &&
      (bgr.buffer != null ==> bgr.buffer != mask.buffer) &&
      (client.mask != null ==> client.mask != bgr.buffer && client.mask != mask.buffer)
    }

    /** The record as a value. */
    ghost function Value(): Shared
      reads this, bgr, bgr.buffer, mask, mask.buffer, client, client.mask
    {
      Shared(bgr.Value(), bufferCounter, isRunning, client.State(), mask.Value(), timestamp)
    }

    /** The worker's copy shares no object or buffer with this record. */
    ghost predicate Apart(local: LocalData)
      reads this, bgr, mask, client, local, local.bgr
    {
      local.bgr != bgr && local.bgr != mask && local.bgr.Valid() &&
      (local.bgr.buffer != null ==>
         local.bgr.buffer != bgr.buffer && local.bgr.buffer != mask.buffer && local.bgr.buffer != client.mask)
    }

    /** `SegmentationThread_create` without the thread start; bzalloc zeroes the timestamp. */
    constructor ()
      ensures Valid() && fresh(bgr) && fresh(mask) && fresh(client)
      ensures Value() == Shared(Img(None, 0), 0, true, Initial(), Img(None, 0), 0)
    {
      client := new SegmentationClient();
      bgr := new ImgArray();
      mask := new ImgArray();
      bufferCounter := 0;
      isRunning := true;
      timestamp := 0;
    }

    /** `SegmentationThread_update_buffer`: stamp, count and copy a new frame; the copy's result is ignored. */
    method UpdateBuffer(ts: uint64, src: seq<byte>, bufferSize: int, allocOk: bool)
      requires Valid() && 0 <= bufferSize <= |src| && bufferSize < 0x8000_0000
      modifies this, bgr, bgr.buffer
      ensures Valid() && bgr == old(bgr) && mask == old(mask) && client == old(client)
      ensures Value() == UpdateSpec(old(Value()), ts, src, bufferSize, allocOk)
      ensures bgr.buffer != old(bgr.buffer) ==> bgr.buffer == null || fresh(bgr.buffer)
    {
      timestamp := ts;
      bufferCounter := if bufferCounter + 1 == TWO_64 then 0 else bufferCounter + 1;
      var _ := bgr.CopyFromRaw(src, bufferSize, allocOk);
    }

    /** `SegmentationThread_set_dimensions`: passed on to the client. */
    method SetDimensions(height: int, width: int)
      requires Valid()
      modifies client
      ensures Valid() && client.mask == old(client.mask)
      ensures Value() == old(Value()).(client := old(client.State()).(preamble := old(client.preamble).(height := TruncInt16(height), width := TruncInt16(width))))
    {
      client.SetDimensions(height, width);
    }

    /** `SegmentationThread_set_parameters`: passed on to the client. */
    method SetParameters(threshold: Float32, blur: int, growshrink: int)
      requires Valid()
      modifies client
      ensures Valid() && client.mask == old(client.mask)
      ensures Value() == old(Value()).(client := old(client.State()).(preamble := old(client.preamble).(threshold := threshold,
                                                                                                  blur := TruncInt16(blur),
                                                                                                  growshrink := TruncInt16(growshrink))))
    {
      client.SetParameters(threshold, blur, growshrink);
    }

    /** The stop flag `SegmentationThread_destroy` sets before joining the worker. */
    method Stop()
      requires Valid()
      modifies this
      ensures Valid() && bgr == old(bgr) && mask == old(mask) && client == old(client)
      ensures Value() == old(Value()).(running := false)
    {
      isRunning := false;
    }

    /** `SegmentationThread_get_mask`: copy the published mask; 1 when none was published. */
    method GetMask(dst: ImgArray, allocOk: bool) returns (rc: int)
      requires Valid() && dst.Valid() && dst != mask && dst != bgr
      requires dst.buffer == null || (dst.buffer != mask.buffer && dst.buffer != bgr.buffer && dst.buffer != client.mask)
      modifies dst, dst.buffer
      ensures Valid() && Value() == old(Value())
      ensures Copied(rc, dst.Value()) == CopyArraySpec(old(dst.Value()), Value().mask, allocOk)
    {
      rc := dst.CopyFromArray(mask, allocOk);
    }

    /** One pass of the `run_thread` loop, under the given rule for the assignment after the new-frame check. */
    method Iterate(local: LocalData, rule: CounterRule, e: Env, allocs: Allocs) returns (d: Decision, e': Env)
      requires Valid() && Apart(local)
      modifies local, local.bgr, local.bgr.buffer, client, client.mask, mask, mask.buffer
      ensures Valid() && Apart(local) && local.bgr == old(local.bgr)
      ensures Pass(d, Value(), local.Value(), e') == PassSpec(old(Value()), old(local.Value()), rule, e, allocs)
    {
      var stop := TakeFrame(local, rule, allocs.copy);
      if stop.Some? {
        return stop.value, e;
      }
      d, e' := RoundAndPublish(local, e, allocs);
    }

    /** The loop body up to the client call, on the worker's copy. */
    method TakeFrame(local: LocalData, rule: CounterRule, allocOk: bool) returns (stop: Option<Decision>)
      requires Valid() && Apart(local)
      modifies local, local.bgr, local.bgr.buffer
      ensures Valid() && Apart(local) && local.bgr == old(local.bgr) && Value() == old(Value())
      ensures Front(stop, local.Value()) == FrontSpec(old(Value()), old(local.Value()), rule, allocOk)
    {
      local.isRunning := isRunning;
      local.bufferCounter := bufferCounter;
      if !local.isRunning {
        return Some(Exit);
      }
      if local.lastBufferCounter == local.bufferCounter {
        return Some(Idle);
      }
      match rule {
        case AsWritten => local.bufferCounter := local.lastBufferCounter;
        case Intended => local.lastBufferCounter := local.bufferCounter;
      }
      if bgr.buffer == null {
        return Some(NoFrame);
      }
      var rc := local.bgr.CopyFromArray(bgr, allocOk);
      if rc != 0 {
        return Some(CopyFailed);
      }
      local.timestamp := timestamp;
      stop := None;
    }

    /** The rest of the loop body: the round on the worker's copy, then the publish. */
    method RoundAndPublish(local: LocalData, e: Env, allocs: Allocs) returns (d: Decision, e': Env)
      requires Valid() && Apart(local) && local.bgr.buffer != null && local.bgr.size < TWO_64
      modifies client, client.mask, mask, mask.buffer
      ensures Valid() && Apart(local) && local.Value() == old(local.Value())
      ensures Value() == old(Value()).(client := client.State(), mask := mask.Value())
      ensures Back(d, client.State(), mask.Value(), e') ==
              BackSpec(old(client.State()), old(mask.Value()), local.timestamp, local.bgr.buffer[..], e, allocs)
    {
      var frame := local.bgr.buffer[..];
      var outcome;
      outcome, e' := RunRound(local, frame, e, allocs.mask);
      if outcome == UndefinedBehaviour {
        return Undefined, e';
      }
      if outcome == Hangs {
        return Hung, e';
      }
      if outcome.rc != 0 {
        return Missed(outcome.rc), e';
      }
      d := PublishMask(local, allocs.publish);
    }

    /** The client call of the loop body; the round keeps the mask buffer and leaves one when it returns 0. */
    method RunRound(local: LocalData, frame: seq<byte>, e: Env, allocOk: bool) returns (outcome: Outcome, e': Env)
      requires Valid() && Apart(local) && |frame| < TWO_64
      modifies client, client.mask
      ensures Valid() && Apart(local) && local.Value() == old(local.Value())
      ensures Value() == old(Value()).(client := client.State())
      ensures Round(outcome, client.State(), e') == RunSpec(old(client.State()), local.timestamp, frame, e, allocOk)
      ensures outcome == Returned(0) ==> client.mask != null
    {
      RoundKeepsMask(client.State(), local.timestamp, frame, e, allocOk);
      outcome, e' := client.RunSegmentation(local.timestamp, frame, e, allocOk);
    }

    /** The publish of the loop body: copy the client's mask into the shared one. */
    method PublishMask(local: LocalData, allocOk: bool) returns (d: Decision)
      requires Valid() && Apart(local) && client.mask != null
      modifies mask, mask.buffer
      ensures Valid() && Apart(local) && local.Value() == old(local.Value())
      ensures Value() == old(Value()).(mask := mask.Value())
      ensures var m := CopyRawSpec(old(mask.Value()), client.mask[..], client.maskSize, allocOk);
              d == (if m.rc == 0 then Published else PublishFailed) && mask.Value() == m.img
    {
      var published := mask.CopyFromRaw(client.mask[..], client.maskSize, allocOk);
      d := if published == 0 then Published else PublishFailed;
    }
  }
}

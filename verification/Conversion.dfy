/** Converting a source buffer unit by unit into a bounded target buffer, for any unit types. */
module Conversion {

  datatype Result = ConversionOK | SourceExhausted | TargetExhausted | SourceIllegal

  /** What a converter does at the start of the remaining source: convert `consumed` source units into
      `units`, for which the target must have room for `need` units, remembering whether the value
      was `illegal`; or stop. With less room than `need` both report an exhausted target. */
  datatype Outcome<T> =
    | Take(consumed: nat, units: seq<T>, need: nat, illegal: bool)
    | Halt(result: Result, need: nat)

  /** A conversion: the result reported, the source consumed, the target written, and whether an
      illegal value was passed over on the way. */
  datatype Conversion<T> = Conversion(result: Result, consumed: nat, out: seq<T>, illegal: bool)

  /** First `a`, then `b` from where `a` stopped. The illegal mark of `a` survives a clean end of `b`. */
  function Join<T>(a: Conversion<T>, b: Conversion<T>): Conversion<T> {
    Conversion(
      if b.result == ConversionOK && a.illegal then SourceIllegal else b.result,
      a.consumed + b.consumed, a.out + b.out, a.illegal || b.illegal)
  }

  function Done<T>(): Conversion<T> {
    Conversion(ConversionOK, 0, [], false)
  }

  function Stop<T>(result: Result): Conversion<T> {
    Conversion(result, 0, [], false)
  }

  function Taken<T>(o: Outcome<T>): Conversion<T>
    requires o.Take?
  {
    Conversion(ConversionOK, o.consumed, o.units, o.illegal)
  }

  /** A converter moves forward inside its source and asks for just the room it fills, or for one unit
      more when it passes over an illegal value. */
  ghost predicate Converter<S(!new), T(!new)>(step: seq<S> -> Outcome<T>) {
    forall s :: s != [] && step(s).Take? ==>
      && 0 < step(s).consumed <= |s| && |step(s).units| <= step(s).need <= |step(s).units| + 1
      && (!step(s).illegal ==> step(s).need == |step(s).units|)
  }

  /** The conversion of `s` into a target with room for `room` units. */
  ghost function Run<S(!new), T(!new)>(step: seq<S> -> Outcome<T>, s: seq<S>, room: nat): Conversion<T>
    requires Converter(step)
    decreases |s|
  {
    if s == [] then Done() else
    var o := step(s);
    if room < o.need then Stop(TargetExhausted)
    else if o.Halt? then Stop(o.result)
    else Join(Taken(o), Run(step, s[o.consumed..], room - |o.units|))
  }

  /** The conversion of `s` into a target that is never exhausted. */
  ghost function RunAll<S(!new), T(!new)>(step: seq<S> -> Outcome<T>, s: seq<S>): Conversion<T>
    requires Converter(step)
    decreases |s|
  {
    if s == [] then Done() else
    var o := step(s);
    if o.Halt? then Stop(o.result) else Join(Taken(o), RunAll(step, s[o.consumed..]))
  }

  lemma JoinAssociative<T>(a: Conversion<T>, b: Conversion<T>, c: Conversion<T>)
    ensures Join(a, Join(b, c)) == Join(Join(a, b), c)
  {
    assert a.out + (b.out + c.out) == (a.out + b.out) + c.out;
  }

  /** No step blames the target by itself ... */
  ghost predicate HaltsForSource<S(!new), T(!new)>(step: seq<S> -> Outcome<T>) {
    forall s :: step(s).Halt? ==> step(s).result != TargetExhausted
  }

  /** ... and stopping before the end is an error. */
  ghost predicate HaltsWithError<S(!new), T(!new)>(step: seq<S> -> Outcome<T>) {
    forall s :: s != [] && step(s).Halt? ==> step(s).result != ConversionOK
  }

  lemma {:induction false} RunInside<S(!new), T(!new)>(step: seq<S> -> Outcome<T>, s: seq<S>, room: nat)
    requires Converter(step)
    ensures Run(step, s, room).consumed <= |s| && |Run(step, s, room).out| <= room
  {
    if s != [] && room >= step(s).need && step(s).Take? {
      RunInside(step, s[step(s).consumed..], room - |step(s).units|);
    }
  }

  /** A run that does not exhaust its target is the unbounded run. */
  lemma {:induction false} RunComplete<S(!new), T(!new)>(step: seq<S> -> Outcome<T>, s: seq<S>, room: nat)
    requires Converter(step) && Run(step, s, room).result != TargetExhausted
    ensures Run(step, s, room) == RunAll(step, s)
  {
    if s != [] && step(s).Take? {
      RunComplete(step, s[step(s).consumed..], room - |step(s).units|);
    }
  }

  /** A source that is accepted as a whole needs just the room that it fills. */
  lemma {:induction false} RoomNeeded<S(!new), T(!new)>(step: seq<S> -> Outcome<T>, s: seq<S>, room: nat)
    requires Converter(step) && HaltsWithError(step) && RunAll(step, s).result == ConversionOK && !RunAll(step, s).illegal
    ensures if |RunAll(step, s).out| <= room then Run(step, s, room) == RunAll(step, s)
            else Run(step, s, room).result == TargetExhausted
  {
    if s != [] {
      var o, tail := step(s), s[step(s).consumed..];
      assert RunAll(step, s) == Join(Taken(o), RunAll(step, tail));
      if o.need <= room {
        RoomNeeded(step, tail, room - |o.units|);
      }
    }
  }

  lemma RunTakes<S(!new), T(!new)>(step: seq<S> -> Outcome<T>, s: seq<S>, room: nat, tail: seq<S>, left: nat)
    requires Converter(step) && s != [] && step(s).Take? && step(s).need <= room
    requires tail == s[step(s).consumed..] && left == room - |step(s).units|
    ensures Run(step, s, room) == Join(Taken(step(s)), Run(step, tail, left))
  {}

  // ---- the same run in accumulating form, the form of the loops

  /** The run of a converter from source position `i` on, with `done` written so far and an illegal
      value met before if `mark`. */
  ghost function RunFrom<S(!new), T(!new)>(
    step: seq<S> -> Outcome<T>, src: seq<S>, room: nat, i: nat, done: seq<T>, mark: bool): Conversion<T>
    requires Converter(step) && i <= |src| && |done| <= room
    decreases |src| - i
  {
    if i == |src| then Conversion(if mark then SourceIllegal else ConversionOK, i, done, mark) else
    var o := step(src[i..]);
    if room - |done| < o.need then Conversion(TargetExhausted, i, done, mark)
    else if o.Halt? then Conversion(o.result, i, done, mark)
    else RunFrom(step, src, room, i + o.consumed, done + o.units, mark || o.illegal)
  }

  lemma RunFromTakes<S(!new), T(!new)>(
    step: seq<S> -> Outcome<T>, src: seq<S>, room: nat, i: nat, done: seq<T>, mark: bool, o: Outcome<T>, i': nat, more: seq<T>)
    requires Converter(step) && i < |src| && |done| <= room && o == step(src[i..])
    requires o.Take? && o.need <= room - |done| && i' == i + o.consumed && more == done + o.units
    ensures i' <= |src| && |more| <= room
    ensures RunFrom(step, src, room, i, done, mark) == RunFrom(step, src, room, i', more, mark || o.illegal)
  {}

  lemma {:induction false} RunFromIsRun<S(!new), T(!new)>(
    step: seq<S> -> Outcome<T>, src: seq<S>, room: nat, i: nat, done: seq<T>, mark: bool, rest: seq<S>, left: nat)
    requires Converter(step) && HaltsWithError(step) && i <= |src| && |done| <= room
    requires rest == src[i..] && left == room - |done|
    ensures RunFrom(step, src, room, i, done, mark) == Join(Conversion(ConversionOK, i, done, mark), Run(step, rest, left))
    decreases |src| - i
  {
    var o := step(rest);
    if rest == [] || o.Halt? || left < o.need {
      JoinStopped(step, rest, left, i, done, mark);
    } else {
      var i', more, tail, left' := i + o.consumed, done + o.units, rest[o.consumed..], left - |o.units|;
      TailOfTail(src, i, o.consumed);
      RunFromIsRun(step, src, room, i', more, mark || o.illegal, tail, left');
      RunFromOnward(step, src, room, i, done, mark, rest, left, o, i', more, tail, left');
    }
  }

  lemma RunFromOnward<S(!new), T(!new)>(
    step: seq<S> -> Outcome<T>, src: seq<S>, room: nat, i: nat, done: seq<T>, mark: bool, rest: seq<S>, left: nat,
    o: Outcome<T>, i': nat, more: seq<T>, tail: seq<S>, left': nat)
    requires Converter(step) && i < |src| && |done| <= room && rest == src[i..] && left == room - |done|
    requires o == step(rest) && o.Take? && o.need <= left
    requires i' == i + o.consumed && more == done + o.units && tail == rest[o.consumed..] && left' == left - |o.units|
    requires RunFrom(step, src, room, i', more, mark || o.illegal)
          == Join(Conversion(ConversionOK, i', more, mark || o.illegal), Run(step, tail, left'))
    ensures RunFrom(step, src, room, i, done, mark) == Join(Conversion(ConversionOK, i, done, mark), Run(step, rest, left))
  {
    RunFromTakes(step, src, room, i, done, mark, o, i', more);
    RunTakes(step, rest, left, tail, left');
    JoinTaken(i, done, mark, o, Run(step, tail, left'), i', more);
  }

  lemma JoinStopped<S(!new), T(!new)>(
    step: seq<S> -> Outcome<T>, rest: seq<S>, left: nat, i: nat, done: seq<T>, mark: bool)
    requires Converter(step) && HaltsWithError(step) && (rest == [] || step(rest).Halt? || left < step(rest).need)
    ensures Join(Conversion(ConversionOK, i, done, mark), Run(step, rest, left))
         == if rest == [] then Conversion(if mark then SourceIllegal else ConversionOK, i, done, mark)
            else if left < step(rest).need then Conversion(TargetExhausted, i, done, mark)
            else Conversion(step(rest).result, i, done, mark)
  {
    assert done + [] == done;
  }

  lemma JoinTaken<T>(i: nat, done: seq<T>, mark: bool, o: Outcome<T>, rest: Conversion<T>, i': nat, more: seq<T>)
    requires o.Take? && i' == i + o.consumed && more == done + o.units
    ensures Join(Conversion(ConversionOK, i, done, mark), Join(Taken(o), rest))
         == Join(Conversion(ConversionOK, i', more, mark || o.illegal), rest)
  {
    assert done + (o.units + rest.out) == (done + o.units) + rest.out;
  }

  lemma WholeRun<S(!new), T(!new)>(step: seq<S> -> Outcome<T>, src: seq<S>, room: nat)
    requires Converter(step) && HaltsWithError(step)
    ensures RunFrom(step, src, room, 0, [], false) == Run(step, src, room)
  {
    hide RunFrom, Run, Converter, HaltsWithError;
    assert src[0..] == src;
    RunFromIsRun(step, src, room, 0, [], false, src, room);
    assert [] + Run(step, src, room).out == Run(step, src, room).out;
  }

  // ---- restarting

  /** With more room than a run that exhausted its target, a run passes through the same point. */
  lemma {:induction false} PassesThrough<S(!new), T(!new)>(
    step: seq<S> -> Outcome<T>, src: seq<S>, room: nat, total: nat, i: nat, done: seq<T>, mark: bool)
    requires Converter(step) && HaltsForSource(step) && i <= |src| && |done| <= room && |done| <= total
    requires RunFrom(step, src, room, i, done, mark).result == TargetExhausted
    requires total > |RunFrom(step, src, room, i, done, mark).out|
    ensures var a := RunFrom(step, src, room, i, done, mark);
            a.consumed <= |src| && RunFrom(step, src, total, i, done, mark) == RunFrom(step, src, total, a.consumed, a.out, a.illegal)
    decreases |src| - i
  {
    var o := step(src[i..]);
    if room - |done| >= o.need {
      OutGrows(step, src, room, i + o.consumed, done + o.units, mark || o.illegal);
      PassesThrough(step, src, room, total, i + o.consumed, done + o.units, mark || o.illegal);
    }
  }

  lemma {:induction false} OutGrows<S(!new), T(!new)>(
    step: seq<S> -> Outcome<T>, src: seq<S>, room: nat, i: nat, done: seq<T>, mark: bool)
    requires Converter(step) && i <= |src| && |done| <= room
    ensures |done| <= |RunFrom(step, src, room, i, done, mark).out|
    decreases |src| - i
  {
    if i < |src| && step(src[i..]).Take? && room - |done| >= step(src[i..]).need {
      var o := step(src[i..]);
      OutGrows(step, src, room, i + o.consumed, done + o.units, mark || o.illegal);
    }
  }

  /** Restarting: after an exhausted target, resuming at the reported source position with what is
      left of `total` room gives together what a single run with `total` room gives. */
  lemma Resume<S(!new), T(!new)>(step: seq<S> -> Outcome<T>, s: seq<S>, room: nat, total: nat)
    requires Converter(step) && HaltsForSource(step) && HaltsWithError(step)
    requires Run(step, s, room).result == TargetExhausted && total > |Run(step, s, room).out|
    ensures Run(step, s, room).consumed <= |s|
    ensures var a := Run(step, s, room);
            Run(step, s, total) == Join(a, Run(step, s[a.consumed..], total - |a.out|))
  {
    var a := Run(step, s, room);
    WholeRun(step, s, room);
    OutGrows(step, s, room, 0, [], false);
    PassesThrough(step, s, room, total, 0, [], false);
    WholeRun(step, s, total);
    RunFromIsRun(step, s, total, a.consumed, a.out, a.illegal, s[a.consumed..], total - |a.out|);
  }

  /** ... and resuming completes the unbounded run as well. */
  lemma {:induction false} ResumeAll<S(!new), T(!new)>(step: seq<S> -> Outcome<T>, s: seq<S>, room: nat)
    requires Converter(step) && HaltsForSource(step)
    requires Run(step, s, room).result == TargetExhausted
    ensures Run(step, s, room).consumed <= |s|
    ensures var a := Run(step, s, room);
            RunAll(step, s) == Join(a, RunAll(step, s[a.consumed..]))
  {
    RunInside(step, s, room);
    var o := step(s);
    if room < o.need {
      JoinStop(RunAll(step, s));
      assert s[0..] == s;
    } else {
      var tail, left := s[o.consumed..], room - |o.units|;
      ResumeAll(step, tail, left);
      ResumeOnward(step, s, room, o, tail, left);
    }
  }

  lemma ResumeOnward<S(!new), T(!new)>(
    step: seq<S> -> Outcome<T>, s: seq<S>, room: nat, o: Outcome<T>, tail: seq<S>, left: nat)
    requires Converter(step) && s != [] && o == step(s) && o.Take? && o.need <= room
    requires tail == s[o.consumed..] && left == room - |o.units|
    requires var b := Run(step, tail, left);
             b.consumed <= |tail| && RunAll(step, tail) == Join(b, RunAll(step, tail[b.consumed..]))
    ensures var a := Run(step, s, room);
            a.consumed <= |s| && RunAll(step, s) == Join(a, RunAll(step, s[a.consumed..]))
  {
    var a, b := Run(step, s, room), Run(step, tail, left);
    RunTakes(step, s, room, tail, left);
    var rest := s[a.consumed..];
    assert rest == tail[b.consumed..] by { TailOfTail(s, o.consumed, b.consumed); }
    JoinAssociative(Taken(o), b, RunAll(step, rest));
  }

  lemma JoinStop<T>(b: Conversion<T>)
    ensures Join(Stop(TargetExhausted), b) == b
  {
    assert [] + b.out == b.out;
  }

  lemma TailOfTail<S>(s: seq<S>, i: nat, j: nat)
    requires i + j <= |s|
    ensures s[i..][j..] == s[i + j..]
  {}

  /** Converting into one buffer after the other, resuming where the previous call ran full. The
      caller sees the result of the last call only. */
  ghost function RunChunks<S(!new), T(!new)>(step: seq<S> -> Outcome<T>, s: seq<S>, rooms: seq<nat>): Conversion<T>
    requires Converter(step)
    decreases |rooms|
  {
    if rooms == [] then Stop(TargetExhausted) else
    var a := Run(step, s, rooms[0]);
    RunInside(step, s, rooms[0]);
    if a.result == TargetExhausted then
      Join(a, RunChunks(step, s[a.consumed..], rooms[1..])).(result := RunChunks(step, s[a.consumed..], rooms[1..]).result)
    else a
  }

  /** Whether a call before the last one passed over an illegal value. */
  ghost predicate MarkLost<S(!new), T(!new)>(step: seq<S> -> Outcome<T>, s: seq<S>, rooms: seq<nat>)
    requires Converter(step)
    decreases |rooms|
  {
    rooms != [] &&
    var a := Run(step, s, rooms[0]);
    RunInside(step, s, rooms[0]);
    a.result == TargetExhausted && (a.illegal || MarkLost(step, s[a.consumed..], rooms[1..]))
  }

  lemma RunProgress<S(!new), T(!new)>(step: seq<S> -> Outcome<T>, s: seq<S>, room: nat)
    requires Converter(step) && s != [] && step(s).need <= room
    requires Run(step, s, room).result == TargetExhausted && HaltsForSource(step)
    ensures Run(step, s, room).consumed > 0
  {}

  /** Any split of the target into buffers that each hold one encoded character, as many as the
      source may need, gives together exactly what a single unbounded run gives. The last call also
      reports its result, except that an illegal value passed over by an earlier call is forgotten. */
  lemma {:induction false} ChunksAreOneRun<S(!new), T(!new)>(step: seq<S> -> Outcome<T>, s: seq<S>, rooms: seq<nat>, most: nat)
    requires Converter(step) && HaltsForSource(step)
    requires forall t :: step(t).need <= most
    requires |rooms| > |s| && forall i :: 0 <= i < |rooms| ==> rooms[i] >= most
    ensures var chunks, whole := RunChunks(step, s, rooms), RunAll(step, s);
            && chunks.out == whole.out && chunks.consumed == whole.consumed && chunks.illegal == whole.illegal
            && chunks.result != TargetExhausted
            && (if MarkLost(step, s, rooms) && chunks.result == ConversionOK then whole.result == SourceIllegal
                else chunks.result == whole.result)
    decreases |rooms|
  {
    var a := Run(step, s, rooms[0]);
    RunInside(step, s, rooms[0]);
    if a.result == TargetExhausted {
      ResumeAll(step, s, rooms[0]);
      RunProgress(step, s, rooms[0]);
      ChunksAreOneRun(step, s[a.consumed..], rooms[1..], most);
      MarkedEnd(step, s[a.consumed..]);
    } else {
      RunComplete(step, s, rooms[0]);
    }
  }

  /** A clean end means that nothing illegal was passed over. */
  lemma {:induction false} MarkedEnd<S(!new), T(!new)>(step: seq<S> -> Outcome<T>, s: seq<S>)
    requires Converter(step)
    ensures RunAll(step, s).result == ConversionOK ==> !RunAll(step, s).illegal
  {
    if s != [] && step(s).Take? {
      MarkedEnd(step, s[step(s).consumed..]);
    }
  }

  /** A run with enough room is the unbounded one, so that a single call can always be large enough. */
  lemma {:induction false} AmpleRoom<S(!new), T(!new)>(step: seq<S> -> Outcome<T>, s: seq<S>, room: nat, most: nat)
    requires Converter(step) && HaltsForSource(step) && forall t :: step(t).need <= most
    requires |RunAll(step, s).out| + most <= room
    ensures Run(step, s, room) == RunAll(step, s) && Run(step, s, room).result != TargetExhausted
  {
    if s != [] && step(s).Take? {
      AmpleRoom(step, s[step(s).consumed..], room - |step(s).units|, most);
    }
  }

  /** As many buffers as the source may need, each with room for one encoded character. */
  ghost predicate Enough<S>(s: seq<S>, rooms: seq<nat>, most: nat) {
    |rooms| > |s| && forall i :: 0 <= i < |rooms| ==> rooms[i] >= most
  }

  /** Resuming gives output, end position and result of any one call whose target does not run full. */
  ghost predicate RestartsAlike<S(!new), T(!new)>(step: seq<S> -> Outcome<T>, s: seq<S>, rooms: seq<nat>) {
    Converter(step) &&
    forall room: nat :: Run(step, s, room).result != TargetExhausted ==> RunChunks(step, s, rooms) == Run(step, s, room)
  }

  /** Whatever the buffers, the calls together deliver all of the target, and the last one ends cleanly. */
  ghost predicate Delivers<S(!new), T(!new)>(step: seq<S> -> Outcome<T>, source: seq<S>, target: seq<T>, most: nat) {
    Converter(step) && forall rooms :: Enough(source, rooms, most) ==> Delivered(RunChunks(step, source, rooms), |source|, target)
  }

  ghost predicate Delivered<T(!new)>(a: Conversion<T>, consumed: nat, target: seq<T>) {
    a.result == ConversionOK && a.consumed == consumed && a.out == target
  }

  // ---- ... in converters that never pass over an illegal value

  ghost predicate NeverIllegal<S(!new), T(!new)>(step: seq<S> -> Outcome<T>) {
    forall s :: s != [] && step(s).Take? ==> !step(s).illegal
  }

  lemma {:induction false} RunUnmarked<S(!new), T(!new)>(step: seq<S> -> Outcome<T>, s: seq<S>, room: nat)
    requires Converter(step) && NeverIllegal(step)
    ensures !Run(step, s, room).illegal
  {
    if s != [] && step(s).Take? && step(s).need <= room {
      RunUnmarked(step, s[step(s).consumed..], room - |step(s).units|);
    }
  }

  lemma {:induction false} NothingLost<S(!new), T(!new)>(step: seq<S> -> Outcome<T>, s: seq<S>, rooms: seq<nat>)
    requires Converter(step) && NeverIllegal(step)
    ensures !MarkLost(step, s, rooms)
    decreases |rooms|
  {
    if rooms != [] {
      RunInside(step, s, rooms[0]);
      RunUnmarked(step, s, rooms[0]);
      NothingLost(step, s[Run(step, s, rooms[0]).consumed..], rooms[1..]);
    }
  }

  lemma NeverIllegalRestarts<S(!new), T(!new)>(step: seq<S> -> Outcome<T>, s: seq<S>, rooms: seq<nat>, most: nat)
    requires Converter(step) && HaltsForSource(step) && NeverIllegal(step) && forall t :: step(t).need <= most
    requires Enough(s, rooms, most)
    ensures RestartsAlike(step, s, rooms)
  {
    hide Run, RunAll, RunChunks, MarkLost, Converter, HaltsForSource;
    ChunksAreOneRun(step, s, rooms, most);
    NothingLost(step, s, rooms);
    forall room: nat | Run(step, s, room).result != TargetExhausted ensures RunChunks(step, s, rooms) == Run(step, s, room) {
      RunComplete(step, s, room);
    }
  }

  lemma NeverIllegalDelivers<S(!new), T(!new)>(step: seq<S> -> Outcome<T>, source: seq<S>, target: seq<T>, most: nat)
    requires Converter(step) && HaltsForSource(step) && NeverIllegal(step) && forall t :: step(t).need <= most
    requires Converts(step, source, target)
    ensures Delivers(step, source, target, most)
  {
    hide Run, RunChunks, Converter, HaltsForSource, NeverIllegal, Enough;
    forall rooms | Enough(source, rooms, most) ensures Delivered(RunChunks(step, source, rooms), |source|, target) {
      NeverIllegalRestarts(step, source, rooms, most);
      assert ConvertsWithin(step, source, target, |target|);
    }
  }

  // ---- ... and in converters that take one unit at a time

  /** Each unit by itself decides whether it stops the conversion or is passed over as illegal. */
  ghost predicate OneByOne<S(!new), T(!new)>(step: seq<S> -> Outcome<T>, passed: S -> bool, refused: S -> bool) {
    forall s :: s != [] ==>
      && (step(s).Halt? <==> refused(s[0]))
      && (step(s).Take? ==> step(s).consumed == 1 && (step(s).illegal <==> passed(s[0])))
  }

  ghost predicate Any<S(!new)>(s: seq<S>, p: S -> bool) {
    exists i :: 0 <= i < |s| && p(s[i])
  }

  lemma AnyOfFirst<S(!new)>(s: seq<S>, n: nat, p: S -> bool)
    requires 1 <= n <= |s|
    ensures Any(s[..n], p) <==> p(s[0]) || Any(s[1..][..n - 1], p)
  {
    var a, b := s[..n], s[1..][..n - 1];
    if Any(a, p) {
      var i :| 0 <= i < |a| && p(a[i]);
      assert i > 0 ==> b[i - 1] == a[i];
    }
    if Any(b, p) {
      var i :| 0 <= i < |b| && p(b[i]);
      assert a[i + 1] == b[i];
    }
    if p(s[0]) { assert a[0] == s[0]; }
  }

  lemma AnySplits<S(!new)>(s: seq<S>, n: nat, m: nat, p: S -> bool)
    requires n + m <= |s|
    ensures Any(s[..n + m], p) <==> Any(s[..n], p) || Any(s[n..][..m], p)
  {
    var a, b, c := s[..n], s[n..][..m], s[..n + m];
    assert c == a + b;
    if Any(c, p) {
      var i :| 0 <= i < |c| && p(c[i]);
      if i < n { assert a[i] == c[i]; } else { assert b[i - n] == c[i]; }
    }
    if Any(a, p) {
      var i :| 0 <= i < |a| && p(a[i]);
      assert c[i] == a[i];
    }
    if Any(b, p) {
      var i :| 0 <= i < |b| && p(b[i]);
      assert c[n + i] == b[i];
    }
  }

  /** A run is marked by what it passed over, and ends cleanly unless something to come is illegal. */
  lemma {:induction false} RunMarks<S(!new), T(!new)>(
    step: seq<S> -> Outcome<T>, s: seq<S>, room: nat, passed: S -> bool, refused: S -> bool)
    requires Converter(step) && HaltsWithError(step) && OneByOne(step, passed, refused)
    ensures var a := Run(step, s, room);
            && a.consumed <= |s| && (a.illegal <==> Any(s[..a.consumed], passed))
            && (a.result != TargetExhausted ==> (a.result == ConversionOK <==> !Any(s, passed) && !Any(s, refused)))
  {
    hide Any;
    if s == [] {
      NotAnyOfNothing(s, passed);
      NotAnyOfNothing(s, refused);
    } else {
      AnyOfFirst(s, |s|, passed);
      AnyOfFirst(s, |s|, refused);
      assert s[..|s|] == s && s[1..][..|s| - 1] == s[1..];
      if step(s).Take? && step(s).need <= room {
        RunMarks(step, s[1..], room - |step(s).units|, passed, refused);
        AnyOfFirst(s, 1 + Run(step, s[1..], room - |step(s).units|).consumed, passed);
      } else {
        NotAnyOfNothing(s[..0], passed);
      }
    }
  }

  lemma NotAnyOfNothing<S(!new)>(s: seq<S>, p: S -> bool)
    requires s == []
    ensures !Any(s, p)
  {}

  /** Where the last of the calls starts in the source. */
  ghost function LastStart<S(!new), T(!new)>(step: seq<S> -> Outcome<T>, s: seq<S>, rooms: seq<nat>): (p: nat)
    requires Converter(step)
    ensures p <= |s|
    decreases |rooms|
  {
    if rooms == [] then 0 else
    var a := Run(step, s, rooms[0]);
    RunInside(step, s, rooms[0]);
    if a.result == TargetExhausted then a.consumed + LastStart(step, s[a.consumed..], rooms[1..]) else 0
  }

  lemma {:induction false} LostBefore<S(!new), T(!new)>(
    step: seq<S> -> Outcome<T>, s: seq<S>, rooms: seq<nat>, passed: S -> bool, refused: S -> bool)
    requires Converter(step) && HaltsWithError(step) && OneByOne(step, passed, refused)
    ensures var p := LastStart(step, s, rooms);
            && (MarkLost(step, s, rooms) <==> Any(s[..p], passed))
            && (RunChunks(step, s, rooms).result != TargetExhausted ==>
                 (RunChunks(step, s, rooms).result == ConversionOK <==> !Any(s[p..], passed) && !Any(s[p..], refused)))
    decreases |rooms|
  {
    hide Any, OneByOne, HaltsWithError, Run;
    if rooms == [] {
      NotAnyOfNothing(s[..0], passed);
    } else {
      var a := Run(step, s, rooms[0]);
      RunMarks(step, s, rooms[0], passed, refused);
      if a.result == TargetExhausted {
        var rest, later := s[a.consumed..], rooms[1..];
        LostBefore(step, rest, later, passed, refused);
        LostLater(step, s, rooms, a, rest, later, LastStart(step, rest, later), passed);
      } else {
        NotAnyOfNothing(s[..0], passed);
        assert s[0..] == s;
      }
    }
  }

  lemma LostLater<S(!new), T(!new)>(
    step: seq<S> -> Outcome<T>, s: seq<S>, rooms: seq<nat>, a: Conversion<T>, rest: seq<S>, later: seq<nat>, q: nat, passed: S -> bool)
    requires Converter(step) && rooms != [] && later == rooms[1..] && a == Run(step, s, rooms[0]) && a.result == TargetExhausted
    requires a.consumed <= |s| && rest == s[a.consumed..] && q == LastStart(step, rest, later)
    requires a.illegal <==> Any(s[..a.consumed], passed)
    requires MarkLost(step, rest, later) <==> Any(rest[..q], passed)
    ensures LastStart(step, s, rooms) == a.consumed + q && s[a.consumed + q..] == rest[q..]
    ensures MarkLost(step, s, rooms) <==> Any(s[..a.consumed + q], passed)
    ensures RunChunks(step, s, rooms).result == RunChunks(step, rest, later).result
  {
    hide Any, Run;
    AnySplits(s, a.consumed, q, passed);
    TailOfTail(s, a.consumed, q);
  }

  /** Some unit was passed over before the last call, and nothing from there on is illegal. */
  ghost predicate Forgotten<S(!new)>(s: seq<S>, p: nat, passed: S -> bool, refused: S -> bool)
    requires p <= |s|
  {
    Any(s[..p], passed) && !Any(s[p..], passed) && !Any(s[p..], refused)
  }

  /** Resuming gives output and end position of any one call whose target does not run full; the result as
      well, unless what an earlier call passed over is forgotten. */
  ghost predicate RestartsUnlessForgotten<S(!new), T(!new)>(
    step: seq<S> -> Outcome<T>, s: seq<S>, rooms: seq<nat>, passed: S -> bool, refused: S -> bool)
  {
    Converter(step) &&
    forall room: nat :: Run(step, s, room).result != TargetExhausted ==>
      var chunks, whole := RunChunks(step, s, rooms), Run(step, s, room);
      && chunks.out == whole.out && chunks.consumed == whole.consumed
      && if Forgotten(s, LastStart(step, s, rooms), passed, refused)
         then chunks.result == ConversionOK && whole.result == SourceIllegal
         else chunks.result == whole.result
  }

  lemma OneByOneRestarts<S(!new), T(!new)>(
    step: seq<S> -> Outcome<T>, s: seq<S>, rooms: seq<nat>, most: nat, passed: S -> bool, refused: S -> bool)
    requires Converter(step) && HaltsForSource(step) && HaltsWithError(step) && forall t :: step(t).need <= most
    requires OneByOne(step, passed, refused) && Enough(s, rooms, most)
    ensures RestartsUnlessForgotten(step, s, rooms, passed, refused)
  {
    hide Run, RunAll, RunChunks, MarkLost, LastStart, Converter, HaltsForSource, HaltsWithError, OneByOne, Any;
    ChunksAreOneRun(step, s, rooms, most);
    LostBefore(step, s, rooms, passed, refused);
    forall room: nat | Run(step, s, room).result != TargetExhausted
      ensures var chunks, whole := RunChunks(step, s, rooms), Run(step, s, room);
              && chunks.out == whole.out && chunks.consumed == whole.consumed
              && if Forgotten(s, LastStart(step, s, rooms), passed, refused)
                 then chunks.result == ConversionOK && whole.result == SourceIllegal
                 else chunks.result == whole.result
    {
      RunComplete(step, s, room);
    }
  }

  lemma OneByOneDelivers<S(!new), T(!new)>(
    step: seq<S> -> Outcome<T>, source: seq<S>, target: seq<T>, most: nat, passed: S -> bool, refused: S -> bool)
    requires Converter(step) && HaltsForSource(step) && HaltsWithError(step) && forall t :: step(t).need <= most
    requires OneByOne(step, passed, refused) && !Any(source, passed) && Converts(step, source, target)
    ensures Delivers(step, source, target, most)
  {
    hide Run, RunChunks, Converter, HaltsForSource, HaltsWithError, OneByOne, Enough, Any;
    forall rooms | Enough(source, rooms, most) ensures Delivered(RunChunks(step, source, rooms), |source|, target) {
      OneByOneRestarts(step, source, rooms, most, passed, refused);
      var p := LastStart(step, source, rooms);
      AnySplits(source, p, |source| - p, passed);
      assert source[..p + (|source| - p)] == source;
      assert ConvertsWithin(step, source, target, |target|);
    }
  }

  /** How a mark gets lost: an illegal unit and another one in the first buffer, a third in the next. */
  lemma FirstIsForgotten<S(!new), T(!new)>(
    step: seq<S> -> Outcome<T>, x: S, y: S, z: S, a: Outcome<T>, b: Outcome<T>, c: Outcome<T>, room: nat)
    requires Converter(step) && step([x, y, z]) == a && step([y, z]) == b && step([z]) == c
    requires a.Take? && a.consumed == 1 && a.illegal && b.Take? && b.consumed == 1 && !b.illegal && c.Take? && !c.illegal
    requires a.need <= room && |a.units| + b.need <= room < |a.units| + |b.units| + c.need && c.need <= room
    ensures var s := [x, y, z];
            && (forall large: nat :: large > |a.units| + |b.units| + |c.units| ==> Run(step, s, large).result == SourceIllegal)
            && Run(step, s, room).result == TargetExhausted && Run(step, s, room).consumed == 2
            && Run(step, [z], room).result == ConversionOK
  {
    var s := [x, y, z];
    assert s[1..] == [y, z] && [y, z][1..] == [z] && [z][1..] == [];
    assert Run(step, [z], room) == Join(Taken(c), Done());
    forall large: nat | large > |a.units| + |b.units| + |c.units| ensures Run(step, s, large).result == SourceIllegal {
      assert Run(step, [z], large - |a.units| - |b.units|) == Join(Taken(c), Done());
      assert Run(step, [y, z], large - |a.units|) == Join(Taken(b), Run(step, [z], large - |a.units| - |b.units|));
    }
    assert Run(step, [y, z], room - |a.units|) == Join(Taken(b), Run(step, [z], room - |a.units| - |b.units|));
  }

  // ---- converters that read one character at a time

  function Concat<S>(parts: seq<seq<S>>): seq<S> {
    if parts == [] then [] else parts[0] + Concat(parts[1..])
  }

  function Values<S, T>(parts: seq<seq<S>>, value: seq<S> -> seq<T>): seq<T> {
    if parts == [] then [] else value(parts[0]) + Values(parts[1..], value)
  }

  ghost predicate AllGood<S>(parts: seq<seq<S>>, good: seq<S> -> bool) {
    forall p :: p in parts ==> good(p)
  }

  /** What is taken is always a good sequence, turned into its value. */
  ghost predicate TakesGood<S(!new), T(!new)>(step: seq<S> -> Outcome<T>, good: seq<S> -> bool, value: seq<S> -> seq<T>) {
    forall s :: s != [] && step(s).Take? && step(s).consumed <= |s| ==>
      good(s[..step(s).consumed]) && step(s).units == value(s[..step(s).consumed]) && !step(s).illegal
  }

  ghost predicate GoodStart<S, T>(step: seq<S> -> Outcome<T>, p: seq<S>, rest: seq<S>, value: seq<S> -> seq<T>) {
    p != [] && step(p + rest).Take? && Taken(step(p + rest)) == Conversion(ConversionOK, |p|, value(p), false)
  }

  /** A good sequence is always taken, whatever follows it. */
  ghost predicate GoodTaken<S(!new), T(!new)>(step: seq<S> -> Outcome<T>, good: seq<S> -> bool, value: seq<S> -> seq<T>) {
    forall p, rest :: good(p) ==> GoodStart(step, p, rest, value)
  }

  ghost predicate Decoder<S(!new), T(!new)>(step: seq<S> -> Outcome<T>, good: seq<S> -> bool, value: seq<S> -> seq<T>) {
    Converter(step) && HaltsWithError(step) && TakesGood(step, good, value) && GoodTaken(step, good, value)
  }

  /** What a bounded run makes of a source that stands for `target`: all of it if there is room. */
  ghost predicate ConvertsWithin<S(!new), T(!new)>(step: seq<S> -> Outcome<T>, source: seq<S>, target: seq<T>, room: nat)
    requires Converter(step)
  {
    if |target| <= room then Run(step, source, room) == Conversion(ConversionOK, |source|, target, false)
    else Run(step, source, room).result == TargetExhausted
  }

  /** The converter turns all of `source` into `target`, given room for just that. */
  ghost predicate Converts<S(!new), T(!new)>(step: seq<S> -> Outcome<T>, source: seq<S>, target: seq<T>) {
    Converter(step) && forall room: nat :: ConvertsWithin(step, source, target, room)
  }

  ghost predicate ConvertsWhole<S(!new), T(!new)>(step: seq<S> -> Outcome<T>, source: seq<S>, target: seq<T>) {
    Converter(step) && RunAll(step, source) == Conversion(ConversionOK, |source|, target, false)
  }

  lemma ConvertsIsWhole<S(!new), T(!new)>(step: seq<S> -> Outcome<T>, source: seq<S>, target: seq<T>)
    requires HaltsWithError(step)
    ensures Converts(step, source, target) <==> ConvertsWhole(step, source, target)
  {
    hide Run, RunAll, Converter, HaltsWithError;
    if ConvertsWhole(step, source, target) {
      forall room: nat ensures ConvertsWithin(step, source, target, room) { RoomNeeded(step, source, room); }
    }
    if Converts(step, source, target) {
      assert ConvertsWithin(step, source, target, |target|);
      RunComplete(step, source, |target|);
    }
  }

  /** A source stands for one target only ... */
  lemma ConvertsOnce<S(!new), T(!new)>(step: seq<S> -> Outcome<T>, source: seq<S>, a: seq<T>, b: seq<T>)
    requires Converts(step, source, a) && Converts(step, source, b)
    ensures a == b
  {
    hide Run, Converter;
    var room := |a| + |b|;
    assert ConvertsWithin(step, source, a, room) && ConvertsWithin(step, source, b, room);
  }

  /** ... which any accepted run writes. */
  lemma ConvertsOnly<S(!new), T(!new)>(step: seq<S> -> Outcome<T>, source: seq<S>, target: seq<T>, room: nat)
    requires Converts(step, source, target) && Run(step, source, room).result == ConversionOK
    ensures Run(step, source, room).out == target
  {
    assert ConvertsWithin(step, source, target, room);
  }

  /** A bounded run accepts exactly the sources an unbounded one does, if there is room. */
  lemma AcceptsWithRoom<S(!new), T(!new)>(step: seq<S> -> Outcome<T>, s: seq<S>, room: nat)
    requires Converter(step) && HaltsWithError(step)
    ensures Run(step, s, room).result == ConversionOK
       <==> RunAll(step, s).result == ConversionOK && |RunAll(step, s).out| <= room
  {
    hide Run, RunAll, Converter, HaltsWithError;
    if Run(step, s, room).result == ConversionOK {
      RunComplete(step, s, room);
      RunInside(step, s, room);
    }
    if RunAll(step, s).result == ConversionOK {
      MarkedEnd(step, s);
      RoomNeeded(step, s, room);
    }
  }

  lemma {:induction false} GoodIsConverted<S(!new), T(!new)>(
    step: seq<S> -> Outcome<T>, good: seq<S> -> bool, value: seq<S> -> seq<T>, parts: seq<seq<S>>)
    requires Decoder(step, good, value) && AllGood(parts, good)
    ensures ConvertsWhole(step, Concat(parts), Values(parts, value))
  {
    if parts != [] {
      var p, rest := parts[0], Concat(parts[1..]);
      assert GoodStart(step, p, rest, value);
      assert (p + rest)[|p|..] == rest;
      GoodIsConverted(step, good, value, parts[1..]);
    }
  }

  lemma {:induction false} ConvertedIsGood<S(!new), T(!new)>(
    step: seq<S> -> Outcome<T>, good: seq<S> -> bool, value: seq<S> -> seq<T>, s: seq<S>) returns (parts: seq<seq<S>>)
    requires Decoder(step, good, value) && RunAll(step, s).result == ConversionOK
    ensures AllGood(parts, good) && s == Concat(parts) && RunAll(step, s).out == Values(parts, value)
    decreases |s|
  {
    hide GoodTaken, AllGood, Concat, Values;
    if s == [] {
      NoParts(good, value);
      return [];
    }
    var p, rest := s[..step(s).consumed], s[step(s).consumed..];
    var later := ConvertedIsGood(step, good, value, rest);
    parts := [p] + later;
    assert RunAll(step, s) == Join(Taken(step(s)), RunAll(step, rest));
    OneMorePart(p, later, good, value);
  }

  lemma NoParts<S(!new), T(!new)>(good: seq<S> -> bool, value: seq<S> -> seq<T>)
    ensures AllGood([], good) && Concat<S>([]) == [] && Values([], value) == []
  {}

  lemma OneMorePart<S(!new), T(!new)>(p: seq<S>, parts: seq<seq<S>>, good: seq<S> -> bool, value: seq<S> -> seq<T>)
    requires good(p) && AllGood(parts, good)
    ensures AllGood([p] + parts, good)
    ensures Concat([p] + parts) == p + Concat(parts) && Values([p] + parts, value) == value(p) + Values(parts, value)
  {
    assert ([p] + parts)[1..] == parts;
  }

  /** The accepted sources are exactly the concatenations of good sequences whose values fit. */
  lemma AcceptsExactly<S(!new), T(!new)>(
    step: seq<S> -> Outcome<T>, good: seq<S> -> bool, value: seq<S> -> seq<T>, s: seq<S>, room: nat)
    requires Decoder(step, good, value)
    ensures Run(step, s, room).result == ConversionOK
       <==> exists parts :: AllGood(parts, good) && s == Concat(parts) && |Values(parts, value)| <= room
  {
    hide Run, RunAll, AllGood, Concat, Values;
    AcceptsWithRoom(step, s, room);
    if Run(step, s, room).result == ConversionOK {
      var parts := ConvertedIsGood(step, good, value, s);
    }
    forall parts | AllGood(parts, good) ensures ConvertsWhole(step, Concat(parts), Values(parts, value)) {
      GoodIsConverted(step, good, value, parts);
    }
  }

  /** Wherever a run stops, the target holds exactly the conversion of the consumed source ... */
  lemma {:induction false} ConsumedIsConverted<S(!new), T(!new)>(
    step: seq<S> -> Outcome<T>, good: seq<S> -> bool, value: seq<S> -> seq<T>, s: seq<S>, room: nat)
    requires Decoder(step, good, value)
    ensures Run(step, s, room).consumed <= |s|
    ensures var a := Run(step, s, room); !a.illegal && ConvertsWhole(step, s[..a.consumed], a.out)
  {
    hide GoodTaken, TakesGood, ConvertsWhole;
    RunInside(step, s, room);
    if s != [] && room >= step(s).need && step(s).Take? {
      var tail, left := s[step(s).consumed..], room - |step(s).units|;
      ConsumedIsConverted(step, good, value, tail, left);
      RunTakes(step, s, room, tail, left);
      ConvertsOneMore(step, good, value, s, tail, Run(step, tail, left));
    } else {
      NothingConverts(step, s);
    }
  }

  lemma NothingConverts<S(!new), T(!new)>(step: seq<S> -> Outcome<T>, s: seq<S>)
    requires Converter(step)
    ensures ConvertsWhole(step, s[..0], [])
  {}

  lemma ConvertsOneMore<S(!new), T(!new)>(
    step: seq<S> -> Outcome<T>, good: seq<S> -> bool, value: seq<S> -> seq<T>, s: seq<S>, tail: seq<S>, b: Conversion<T>)
    requires Decoder(step, good, value) && s != [] && step(s).Take? && step(s).consumed + b.consumed <= |s|
    requires tail == s[step(s).consumed..] && !b.illegal && ConvertsWhole(step, tail[..b.consumed], b.out)
    ensures var a := Join(Taken(step(s)), b); !a.illegal && a.consumed <= |s| && ConvertsWhole(step, s[..a.consumed], a.out)
  {
    hide GoodTaken;
    PrefixConverts(step, good, value, s, b.consumed);
  }

  /** ... and the reported source position is the end or the first unit that was not converted. */
  ghost predicate StoppedBy<S(!new), T(!new)>(step: seq<S> -> Outcome<T>, s: seq<S>, room: nat, a: Conversion<T>) {
    a.consumed <= |s| && |a.out| <= room &&
    if a.consumed == |s| then a.result == ConversionOK else
    var o := step(s[a.consumed..]);
    if room - |a.out| < o.need then a.result == TargetExhausted else o.Halt? && a.result == o.result
  }

  lemma {:induction false} StopsAtCause<S(!new), T(!new)>(step: seq<S> -> Outcome<T>, s: seq<S>, room: nat)
    requires Converter(step) && HaltsWithError(step) && NeverIllegal(step)
    ensures StoppedBy(step, s, room, Run(step, s, room))
  {
    RunInside(step, s, room);
    if s != [] {
      var o := step(s);
      if room < o.need || o.Halt? {
        assert s[0..] == s;
      } else {
        StopsAtCause(step, s[o.consumed..], room - |o.units|);
        StoppedLater(step, s, room, Run(step, s[o.consumed..], room - |o.units|));
        assert !o.illegal;
      }
    }
  }

  lemma StoppedLater<S(!new), T(!new)>(step: seq<S> -> Outcome<T>, s: seq<S>, room: nat, b: Conversion<T>)
    requires s != [] && step(s).Take? && step(s).consumed <= |s| && |step(s).units| <= room && !step(s).illegal
    requires StoppedBy(step, s[step(s).consumed..], room - |step(s).units|, b)
    ensures StoppedBy(step, s, room, Join(Taken(step(s)), b))
  {
    TailOfTail(s, step(s).consumed, b.consumed);
  }

  lemma PrefixConverts<S(!new), T(!new)>(
    step: seq<S> -> Outcome<T>, good: seq<S> -> bool, value: seq<S> -> seq<T>, s: seq<S>, n: nat)
    requires Decoder(step, good, value) && s != [] && step(s).Take? && step(s).consumed + n <= |s|
    ensures var o := step(s);
            RunAll(step, s[..o.consumed + n]) == Join(Taken(o), RunAll(step, s[o.consumed..][..n]))
  {
    var o := step(s);
    var p, tail := s[..o.consumed], s[o.consumed..][..n];
    assert s[..o.consumed + n] == p + tail;
    assert GoodStart(step, p, tail, value);
    assert (p + tail)[|p|..] == tail;
  }

  ghost function Flat<X, S>(xs: seq<X>, f: X -> seq<S>): seq<S> {
    if xs == [] then [] else f(xs[0]) + Flat(xs[1..], f)
  }

  /** At the encoding of `x`, whatever follows, the converter takes just that and writes the other one. */
  ghost predicate Encodes<X, S, T>(step: seq<S> -> Outcome<T>, x: X, rest: seq<S>, from: X -> seq<S>, to: X -> seq<T>) {
    var o := step(from(x) + rest);
    from(x) != [] && o.Take? && Taken(o) == Conversion(ConversionOK, |from(x)|, to(x), false)
  }

  /** How many characters of a text fit into the room. */
  ghost function Fit<X, T>(xs: seq<X>, to: X -> seq<T>, room: nat): (k: nat)
    ensures k <= |xs|
  {
    if xs == [] || |to(xs[0])| > room then 0 else 1 + Fit(xs[1..], to, room - |to(xs[0])|)
  }

  /** It is the most that does, and all exactly when the whole encoding fits. */
  lemma {:induction false} FitIsMost<X, T>(xs: seq<X>, to: X -> seq<T>, room: nat)
    ensures var k := Fit(xs, to, room);
            && |Flat(xs[..k], to)| <= room && (k < |xs| ==> |Flat(xs[..k + 1], to)| > room)
            && (k == |xs| <==> |Flat(xs, to)| <= room)
  {
    var k := Fit(xs, to, room);
    if xs != [] {
      FlatFirst(xs, to);
      if |to(xs[0])| <= room {
        var tail := xs[1..];
        FitIsMost(tail, to, room - |to(xs[0])|);
        FlatPrefix(xs, to, k);
        if k < |xs| { FlatPrefix(xs, to, k + 1); }
      } else {
        FlatPrefix(xs, to, 1);
        assert xs[..0] == [];
      }
    }
  }

  lemma FlatFirst<X, T>(xs: seq<X>, to: X -> seq<T>)
    requires xs != []
    ensures Flat(xs, to) == to(xs[0]) + Flat(xs[1..], to)
  {}

  lemma FlatPrefix<X, T>(xs: seq<X>, to: X -> seq<T>, k: nat)
    requires 0 < k <= |xs|
    ensures Flat(xs[..k], to) == to(xs[0]) + Flat(xs[1..][..k - 1], to)
  {
    assert xs[..k][1..] == xs[1..][..k - 1];
  }

  /** What a run makes of a text in one encoding: the other encoding of as many characters as fit, and
      the source left at the next character. */
  ghost predicate FillsTo<X(!new), S(!new), T(!new)>(
    step: seq<S> -> Outcome<T>, xs: seq<X>, from: X -> seq<S>, to: X -> seq<T>, room: nat, k: nat)
    requires Converter(step) && k <= |xs|
  {
    Run(step, Flat(xs, from), room)
      == Conversion(if k == |xs| then ConversionOK else TargetExhausted, |Flat(xs[..k], from)|, Flat(xs[..k], to), false)
  }

  ghost predicate Fills<X(!new), S(!new), T(!new)>(
    step: seq<S> -> Outcome<T>, xs: seq<X>, from: X -> seq<S>, to: X -> seq<T>)
  {
    Converter(step) && forall room: nat :: FillsTo(step, xs, from, to, room, Fit(xs, to, room))
  }

  /** A converter that turns each encoded character into its other encoding does so with every text,
      character by character as long as there is room. */
  lemma {:induction false} FillsRoom<X(!new), S(!new), T(!new)>(
    step: seq<S> -> Outcome<T>, xs: seq<X>, from: X -> seq<S>, to: X -> seq<T>, room: nat)
    requires Converter(step)
    requires forall x, rest :: x in xs ==> Encodes(step, x, rest, from, to)
    ensures FillsTo(step, xs, from, to, room, Fit(xs, to, room))
  {
    if xs != [] {
      var first, rest := from(xs[0]), Flat(xs[1..], from);
      assert Encodes(step, xs[0], rest, from, to);
      assert (first + rest)[|first|..] == rest;
      if |to(xs[0])| <= room {
        var left := room - |to(xs[0])|;
        FillsRoom(step, xs[1..], from, to, left);
        var k := Fit(xs[1..], to, left);
        RunTakes(step, first + rest, room, rest, left);
        FlatPrefix(xs, from, k + 1);
        FlatPrefix(xs, to, k + 1);
      } else {
        assert xs[..0] == [];
      }
    }
  }

  lemma RunFills<X(!new), S(!new), T(!new)>(
    step: seq<S> -> Outcome<T>, xs: seq<X>, from: X -> seq<S>, to: X -> seq<T>)
    requires Converter(step)
    requires forall x, rest :: x in xs ==> Encodes(step, x, rest, from, to)
    ensures Fills(step, xs, from, to)
  {
    hide Encodes, FillsTo, Converter;
    forall room: nat ensures FillsTo(step, xs, from, to, room, Fit(xs, to, room)) { FillsRoom(step, xs, from, to, room); }
  }

  /** With room for all of it, the whole text is converted. */
  lemma FillsConverts<X(!new), S(!new), T(!new)>(
    step: seq<S> -> Outcome<T>, xs: seq<X>, from: X -> seq<S>, to: X -> seq<T>)
    requires Fills(step, xs, from, to)
    ensures Converts(step, Flat(xs, from), Flat(xs, to))
  {
    hide Run, Converter, Fit, Flat;
    forall room: nat ensures ConvertsWithin(step, Flat(xs, from), Flat(xs, to), room) {
      assert FillsTo(step, xs, from, to, room, Fit(xs, to, room));
      FitIsMost(xs, to, room);
      assert xs[..|xs|] == xs;
    }
  }
}

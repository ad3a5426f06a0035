/** The converters of ConvertUTF.c on buffers: loops over source positions that write into the
    caller's target array. The pointers into the two buffers are positions here. */
module ConvertBuffers {
  import opened Conversion
  import opened Unicode
  import opened ConvertUTF

  /** What a call leaves behind: the result, the two advanced positions, and the target that was
      `before`, changed only where the output went. */
  datatype Report<T> = Report(result: Result, sourceNext: nat, targetNext: nat, target: seq<T>)

  ghost function Converted<S(!new), T(!new)>(
    step: seq<S> -> Outcome<T>, src: seq<S>, room: nat, sourceStart: nat, targetStart: nat, before: seq<T>): Report<T>
    requires Converter(step) && targetStart + room <= |before|
  {
    RunInside(step, src, room);
    var r := Run(step, src, room);
    Report(r.result, sourceStart + r.consumed, targetStart + |r.out|, Splice(before, targetStart, r.out))
  }

  /** `before` with `units` written from position `at` on. */
  ghost function Splice<T>(before: seq<T>, at: nat, units: seq<T>): seq<T>
    requires at + |units| <= |before|
  {
    before[..at] + units + before[at + |units|..]
  }

  lemma SpliceNone<T>(before: seq<T>, at: nat)
    requires at <= |before|
    ensures Splice(before, at, []) == before
  {}

  /** What one pass through a loop body achieves for the step `o`, with `room` units of target left:
      it stops where it was, target untouched, with the reason as its result ... */
  ghost predicate StopsAt<T>(o: Outcome<T>, room: nat, result: Result) {
    (room < o.need || o.Halt?) && result == if room < o.need then TargetExhausted else o.result
  }

  /** ... or moves on, the converted units written behind `before[..t]`. */
  ghost predicate MovesOn<T>(o: Outcome<T>, room: nat, t: nat, before: seq<T>, after: seq<T>) {
    o.Take? && o.need <= room && t + |o.units| <= |before| && after == Splice(before, t, o.units)
  }

  /** What one pass through a loop body achieves for the step `o`. */
  ghost predicate Passed<T>(
    o: Outcome<T>, room: nat, go: bool, s0: nat, s: nat, t0: nat, t: nat, result0: Result, result: Result,
    before: seq<T>, after: seq<T>)
  {
    if go then
      && MovesOn(o, room, t0, before, after) && s == s0 + o.consumed && t == t0 + |o.units|
      && result == (if o.illegal then SourceIllegal else result0)
    else
      s == s0 && t == t0 && after == before && StopsAt(o, room, result)
  }

  lemma WriteMore<T>(
    before: seq<T>, start: nat, done: seq<T>, mid: seq<T>, o: Outcome<T>, room: nat, t: nat, after: seq<T>, more: seq<T>)
    requires start + |done| <= |before| && mid == Splice(before, start, done) && t == start + |done|
    requires MovesOn(o, room, t, mid, after) && more == done + o.units
    ensures start + |more| <= |before| && after == Splice(before, start, more)
  {
    assert mid[..t] == before[..start] + done;
    assert mid[t + |o.units|..] == before[t + |o.units|..];
  }

  /** A conversion under way: its source, target and room, and what was in the target before. */
  datatype Job<!S(!new), !T(!new)> = Job(
    step: seq<S> -> Outcome<T>, src: seq<S>, sourceStart: nat, before: seq<T>, targetStart: nat, room: nat)
  {
    ghost predicate Ok() {
      Converter(step) && HaltsWithError(step) && targetStart + room <= |before|
    }

    ghost function Whole(): Conversion<T>
      requires Ok()
    {
      Run(step, src, room)
    }
  }

  /** The loop invariant: so far `target` holds the output of the source before `s`. */
  ghost predicate Going<S(!new), T(!new)>(job: Job<S, T>, s: nat, t: nat, result: Result, target: seq<T>, done: seq<T>)
    requires job.Ok()
  {
    && job.sourceStart <= s <= job.sourceStart + |job.src| && t == job.targetStart + |done| <= job.targetStart + job.room
    && (result == ConversionOK || result == SourceIllegal)
    && target == Splice(job.before, job.targetStart, done)
    && RunFrom(job.step, job.src, job.room, s - job.sourceStart, done, result == SourceIllegal)
       == job.Whole()
  }

  ghost predicate Finished<S(!new), T(!new)>(job: Job<S, T>, s: nat, t: nat, result: Result, target: seq<T>)
    requires job.Ok()
  {
    Report(result, s, t, target) == Converted(job.step, job.src, job.room, job.sourceStart, job.targetStart, job.before)
  }

  lemma Starts<S(!new), T(!new)>(job: Job<S, T>)
    requires job.Ok()
    ensures Going(job, job.sourceStart, job.targetStart, ConversionOK, job.before, [])
  {
    WholeRun(job.step, job.src, job.room);
  }

  lemma GoesOn<S(!new), T(!new)>(
    job: Job<S, T>, s: nat, t: nat, result: Result, mid: seq<T>, done: seq<T>, after: seq<T>, o: Outcome<T>,
    s': nat, t': nat, result': Result, more: seq<T>)
    requires job.Ok() && Going(job, s, t, result, mid, done) && s < job.sourceStart + |job.src|
    requires o == job.step(job.src[s - job.sourceStart..]) && MovesOn(o, job.targetStart + job.room - t, t, mid, after)
    requires s' == s + o.consumed && t' == t + |o.units| && more == done + o.units
    requires result' == if o.illegal then SourceIllegal else result
    ensures Going(job, s', t', result', after, more) && s < s'
  {
    var i, i' := s - job.sourceStart, s' - job.sourceStart;
    WriteMore(job.before, job.targetStart, done, mid, o, job.targetStart + job.room - t, t, after, more);
    RunFromTakes(job.step, job.src, job.room, i, done, result == SourceIllegal, o, i', more);
    assert (result' == SourceIllegal) == (result == SourceIllegal || o.illegal);
  }

  lemma Halts<S(!new), T(!new)>(
    job: Job<S, T>, s: nat, t: nat, result: Result, target: seq<T>, done: seq<T>, why: Result)
    requires job.Ok() && Going(job, s, t, result, target, done) && s < job.sourceStart + |job.src|
    requires StopsAt(job.step(job.src[s - job.sourceStart..]), job.targetStart + job.room - t, why)
    ensures Finished(job, s, t, why, target)
  {}

  lemma Ends<S(!new), T(!new)>(job: Job<S, T>, s: nat, t: nat, result: Result, target: seq<T>, done: seq<T>)
    requires job.Ok() && Going(job, s, t, result, target, done) && s == job.sourceStart + |job.src|
    ensures Finished(job, s, t, result, target)
  {}

  /** A pass keeps the loop going or ends it. */
  lemma Proceeds<S(!new), T(!new)>(
    job: Job<S, T>, go: bool, s0: nat, s: nat, t0: nat, t: nat, result0: Result, result: Result,
    mid: seq<T>, after: seq<T>, done: seq<T>) returns (more: seq<T>)
    requires job.Ok() && Going(job, s0, t0, result0, mid, done) && job.sourceStart <= s0 < job.sourceStart + |job.src|
    requires t0 <= job.targetStart + job.room
    requires Passed(job.step(job.src[s0 - job.sourceStart..]), job.targetStart + job.room - t0, go, s0, s, t0, t, result0, result, mid, after)
    ensures if go then
              Going(job, s, t, result, after, more) && s0 < s <= job.sourceStart + |job.src| && t <= job.targetStart + job.room
            else Finished(job, s, t, result, after)
  {
    more := done;
    if go {
      var o := job.step(job.src[s0 - job.sourceStart..]);
      more := done + o.units;
      GoesOn(job, s0, t0, result0, mid, done, after, o, s, t, result, more);
    } else {
      Halts(job, s0, t0, result0, mid, done, result);
    }
  }

  // ---- the shared writing and reading switches

  method WriteUnit<T>(target: array<T>, at: nat, unit: T) returns (t: nat)
    requires at < target.Length
    modifies target
    ensures t == at + 1 && target[..] == Splice(old(target[..]), at, [unit])
  {
    target[at] := unit;
    t := at + 1;
  }

  /** The surrogate pair of a value above the basic plane. */
  method WriteUnits(target: array<bv16>, at: nat, value: bv32) returns (t: nat)
    requires at + 1 < target.Length
    modifies target
    ensures t == at + 2 && target[..] == Splice(old(target[..]), at, UnitsOf(value))
  {
    t := at;
    var ch := value - 0x10000;
    target[t] := (((ch >> 10) + 0xD800) & 0xFFFF) as bv16;
    t := t + 1;
    target[t] := (((ch & 0x3FF) + 0xDC00) & 0xFFFF) as bv16;
    t := t + 1;
  }

  /** One case of the fall-through writing switch: a byte in front of the last one written. */
  method WriteTrailing(target: array<bv8>, at: nat, value: bv32) returns (t: nat, ch: bv32)
    requires 0 < at <= target.Length
    modifies target
    ensures t == at - 1 && ch == value >> 6 && target[..] == old(target[..])[t := TrailingByte(value)]
  {
    t := at - 1;
    target[t] := TrailingByte(value);
    ch := value >> 6;
    assert target[..] == old(target[..])[t := TrailingByte(value)];
  }

  /** The fall-through writing switch: from the last byte back to the first. */
  method WriteBytes(target: array<bv8>, at: nat, value: bv32, bytesToWrite: nat) returns (t: nat)
    requires 1 <= bytesToWrite <= 4 && at + bytesToWrite <= target.Length
    modifies target
    ensures t == at + bytesToWrite
    ensures target[..] == Splice(old(target[..]), at, WrittenBytes(value, bytesToWrite))
  {
    ghost var before := target[..];
    t := at + bytesToWrite;
    var ch := value;
    if bytesToWrite >= 4 {
      t, ch := WriteTrailing(target, t, ch);
    }
    if bytesToWrite >= 3 {
      t, ch := WriteTrailing(target, t, ch);
    }
    if bytesToWrite >= 2 {
      t, ch := WriteTrailing(target, t, ch);
    }
    ghost var mid := target[..];
    t := t - 1;
    target[t] := FirstByte(ch, bytesToWrite);
    assert target[..] == mid[t := FirstByte(ch, bytesToWrite)];
    t := t + bytesToWrite;
    UpdatesAreSplice(before, at, WrittenBytes(value, bytesToWrite), target[..]);
  }

  lemma UpdatesAreSplice<T>(before: seq<T>, at: nat, units: seq<T>, after: seq<T>)
    requires 1 <= |units| <= 4 && at + |units| <= |before|
    requires var b3 := if |units| >= 4 then before[at + |units| - 1 := units[|units| - 1]] else before;
             var b2 := if |units| >= 3 then b3[at + 2 := units[2]] else b3;
             var b1 := if |units| >= 2 then b2[at + 1 := units[1]] else b2;
             after == b1[at := units[0]]
    ensures after == Splice(before, at, units)
  {}

  /** The sum before byte `j` is added: what was read so far, shifted. */
  function Partial(s: seq<bv8>, j: nat): bv32
    requires j <= |s|
  {
    if j == 0 then 0 else Shift(Gather(s, j - 1))
  }

  lemma ZeroAdds(b: bv8)
    ensures AddByte(0, b) == b as bv32
  {}

  lemma PartialAdds(s: seq<bv8>, j: nat)
    requires j < |s|
    ensures AddByte(Partial(s, j), s[j]) == Gather(s, j)
  {
    ZeroAdds(s[j]);
  }

  /** One case of the fall-through reading switch. */
  method ReadByte(b: bv8, ghost rest: seq<bv8>, ghost j: nat, ch0: bv32) returns (ch: bv32)
    requires j < |rest| && b == rest[j] && ch0 == Partial(rest, j)
    ensures ch == Partial(rest, j + 1)
  {
    PartialAdds(rest, j);
    ch := Shift(AddByte(ch0, b));
  }

  /** Its last case. */
  method AddLast(b: bv8, ghost rest: seq<bv8>, ghost j: nat, ghost extra: nat, ch0: bv32) returns (ch: bv32)
    requires j == extra < |rest| && b == rest[j] && ch0 == Partial(rest, j)
    ensures ch == Gather(rest, extra)
  {
    PartialAdds(rest, j);
    ch := AddByte(ch0, b);
  }

  /** The fall-through reading switch, in the form of the loop it is documented to stand for. */
  method ReadBytes(source: seq<bv8>, at: nat, extra: nat) returns (ch: bv32, s: nat)
    requires extra <= 5 && at + extra < |source|
    ensures s == at + extra + 1 && ch == Gather(source[at..], extra)
  {
    ghost var rest := source[at..];
    ch := 0;
    var read := 0;
    while read < extra
      invariant read <= extra && ch == Partial(rest, read)
    {
      assert rest[read] == source[at + read];
      ch := ReadByte(source[at + read], rest, read, ch);
      read := read + 1;
    }
    ch := AddLast(source[at + extra], rest, read, extra, ch);
    s := at + extra + 1;
  }

  // ---- reading one character

  /** One case of the reverse switch: the byte in front of the last one looked at. */
  method TrailingByteOk(source: seq<bv8>, srcptr0: nat) returns (ok: bool, srcptr: nat)
    requires 0 < srcptr0 <= |source|
    ensures srcptr == srcptr0 - 1 && (ok <==> Continuation(source[srcptr]))
  {
    srcptr := srcptr0 - 1;
    var a := source[srcptr];
    ok := !(a < 0x80 || a > 0xBF);
  }

  /** The inner switch, on the second byte. */
  method SecondByteOk(first: bv8, a: bv8) returns (ok: bool)
    ensures ok <==> LegalSecond(first, a)
  {
    match first
    case 0xE0 => ok := !(a < 0xA0);
    case 0xED => ok := !(a > 0x9F);
    case 0xF0 => ok := !(a < 0x90);
    case 0xF4 => ok := !(a > 0x8F);
    case _ => ok := !(a < 0x80);
  }

  /** `isLegalUTF8`: from the last byte back to the first, each case falling through to the next. */
  method IsLegalUTF8(source: seq<bv8>, at: nat, length: nat, ghost rest: seq<bv8>) returns (legal: bool)
    requires 1 <= length <= |rest| && at + |rest| <= |source| && rest == source[at..at + |rest|]
    ensures legal <==> IsLegal(rest, length)
  {
    hide LegalSecond, Continuation;
    if length > 4 {
      return false;
    }
    var srcptr, ok := at + length, true;
    if length >= 4 {
      ok, srcptr := TrailingByteOk(source, srcptr);
      if !ok { return false; }
    }
    if length >= 3 {
      ok, srcptr := TrailingByteOk(source, srcptr);
      if !ok { return false; }
    }
    if length >= 2 {
      srcptr := srcptr - 1;
      var a := source[srcptr];
      if a > 0xBF { return false; }
      ok := SecondByteOk(source[at], a);
      if !ok { return false; }
    }
    if source[at] >= 0x80 && source[at] < 0xC2 { return false; }
    legal := !(source[at] > 0xF4);
  }

  lemma ReadsHigh(s: seq<bv16>, high: bv16, flags: Flags)
    requires s != [] && s[0] == high && IsHigh(high)
    ensures |s| == 1 ==> Read16(s, flags) == Unreadable(SourceExhausted)
    ensures |s| > 1 && !IsLow(s[1]) && flags.Strict? ==> Read16(s, flags) == Unreadable(SourceIllegal)
    ensures |s| > 1 && !IsLow(s[1]) && !flags.Strict? ==> Read16(s, flags) == Character(high as bv32, 1)
  {
    hide IsHigh, IsLow, PairValue;
  }

  lemma ReadsPair(s: seq<bv16>, high: bv16, low: bv16, flags: Flags)
    requires |s| > 1 && s[0] == high && s[1] == low && IsHigh(high) && IsLow(low)
    ensures Read16(s, flags) == Character(PairValue(high, low), 2)
  {
    hide IsHigh, IsLow, PairValue;
  }

  lemma ReadsOther(s: seq<bv16>, unit: bv16, flags: Flags)
    requires s != [] && s[0] == unit && !IsHigh(unit)
    ensures Read16(s, flags) == if flags.Strict? && IsLow(unit) then Unreadable(SourceIllegal) else Character(unit as bv32, 1)
  {
    hide IsHigh, IsLow, PairValue;
  }

  /** One character of UTF-16 and the source behind it; the source is put back when there is none. */
  method ReadCharacter16(source: seq<bv16>, at: nat, sourceEnd: nat, flags: Flags) returns (c: Character, s: nat)
    requires at < sourceEnd <= |source|
    ensures c == Read16(source[at..sourceEnd], flags)
    ensures s == if c.Character? then at + c.units else at
  {
    hide Read16, PairValue, IsHigh, IsLow;
    ghost var rest := source[at..sourceEnd];
    s := at;
    var ch := source[s];
    s := s + 1;
    if IsHigh(ch) {
      ReadsHigh(rest, ch, flags);
      if s < sourceEnd {
        var ch2 := source[s];
        if IsLow(ch2) {
          ReadsPair(rest, ch, ch2, flags);
          s := s + 1;
          return Character(PairValue(ch, ch2), s - at), s;
        } else if flags.Strict? {
          s := s - 1;
          return Unreadable(SourceIllegal), s;
        }
      } else {
        s := s - 1;
        return Unreadable(SourceExhausted), s;
      }
    } else {
      ReadsOther(rest, ch, flags);
      if flags.Strict? && IsLow(ch) {
        s := s - 1;
        return Unreadable(SourceIllegal), s;
      }
    }
    c := Character(ch as bv32, s - at);
  }

  method ReadCharacter8(source: seq<bv8>, at: nat, sourceEnd: nat) returns (c: Character)
    requires at < sourceEnd <= |source|
    ensures c == Read8(source[at..sourceEnd])
  {
    var extraBytesToRead := TrailingBytes(source[at]);
    if at + extraBytesToRead >= sourceEnd {
      return Unreadable(SourceExhausted);
    }
    var legal := IsLegalUTF8(source, at, extraBytesToRead + 1, source[at..sourceEnd]);
    if !legal {
      return Unreadable(SourceIllegal);
    }
    var ch, s := ReadBytes(source[..sourceEnd], at, extraBytesToRead);
    assert source[..sourceEnd][at..] == source[at..sourceEnd];
    c := Character(ch - Offset(extraBytesToRead), s - at);
  }

  // ---- writing one character

  /** Counting the bytes, making room, writing them. */
  method WriteCharacter8(target: array<bv8>, at: nat, targetEnd: nat, value: bv32) returns (fits: bool, t: nat)
    requires at <= targetEnd <= target.Length
    modifies target
    ensures fits <==> at + BytesToWrite(value) <= targetEnd
    ensures if fits then
              && t == at + BytesToWrite(value)
              && target[..] == Splice(old(target[..]), at, WrittenBytes(if value < 0x110000 then value else REPLACEMENT, BytesToWrite(value)))
            else t == at && target[..] == old(target[..])
  {
    var bytesToWrite: nat;
    var ch := value;
    if ch < 0x80 {
      bytesToWrite := 1;
    } else if ch < 0x800 {
      bytesToWrite := 2;
    } else if ch < 0x10000 {
      bytesToWrite := 3;
    } else if ch < 0x110000 {
      bytesToWrite := 4;
    } else {
      bytesToWrite := 3;
      ch := REPLACEMENT;
    }
    if at + bytesToWrite > targetEnd {
      return false, at;
    }
    t := WriteBytes(target, at, ch, bytesToWrite);
    fits := true;
  }

  function Units16(ch: bv32): (units: seq<bv16>)
    ensures 1 <= |units| <= 2
  {
    if ch <= 0xFFFF then [if Surrogate(ch) then 0xFFFD else UnitOf(ch)] else if ch > 0x10FFFF then [0xFFFD] else UnitsOf(ch)
  }

  /** One unit or a pair, if there is room; a value that is no character is replaced. */
  method WriteCharacter16(target: array<bv16>, at: nat, targetEnd: nat, ch: bv32) returns (fits: bool, t: nat)
    requires at < targetEnd <= target.Length
    modifies target
    ensures fits <==> at + |Units16(ch)| <= targetEnd
    ensures if fits then t == at + |Units16(ch)| && target[..] == Splice(old(target[..]), at, Units16(ch))
            else t == at && target[..] == old(target[..])
  {
    fits := true;
    if ch <= 0xFFFF {
      if 0xD800 <= ch <= 0xDFFF {
        t := WriteUnit(target, at, 0xFFFD);
      } else {
        t := WriteUnit(target, at, UnitOf(ch));
      }
    } else if ch > 0x10FFFF {
      t := WriteUnit(target, at, 0xFFFD);
    } else {
      if at + 1 >= targetEnd {
        return false, at;
      }
      t := WriteUnits(target, at, ch);
    }
  }

  // ---- one pass through each loop

  lemma Cases32to16(s: seq<bv32>, flags: Flags)
    requires s != []
    ensures var ch := s[0];
            Step32to16(s, flags) ==
            if flags.Strict? && 0xD800 <= ch <= 0xDFFF then Halt(SourceIllegal, 1)
            else if flags.Strict? && ch > 0x10FFFF then Take(1, [], 1, true)
            else Take(1, Units16(ch), |Units16(ch)|, false)
  {}

  method Pass32to16(
    source: seq<bv32>, sourceEnd: nat, s0: nat, target: array<bv16>, targetEnd: nat, t0: nat, flags: Flags, result0: Result)
    returns (go: bool, s: nat, t: nat, result: Result)
    requires s0 < sourceEnd <= |source| && t0 <= targetEnd <= target.Length
    modifies target
    ensures Passed(Step32to16(source[s0..sourceEnd], flags), targetEnd - t0, go, s0, s, t0, t, result0, result, old(target[..]), target[..])
  {
    hide Step32to16, Units16, UnitsOf, Splice;
    Cases32to16(source[s0..sourceEnd], flags);
    go, s, t, result := true, s0, t0, result0;
    if t >= targetEnd {
      return false, s, t, TargetExhausted;
    }
    var ch := source[s];
    s := s + 1;
    if flags.Strict? && ch <= 0xFFFF && 0xD800 <= ch <= 0xDFFF {
      return false, s - 1, t, SourceIllegal;
    }
    if flags.Strict? && ch > 0x10FFFF {
      result := SourceIllegal;
      SpliceNone(target[..], t);
    } else {
      go, t := WriteCharacter16(target, t, targetEnd, ch);
      if !go {
        return false, s - 1, t, TargetExhausted;
      }
    }
  }

  method Pass16to32(
    source: seq<bv16>, sourceEnd: nat, s0: nat, target: array<bv32>, targetEnd: nat, t0: nat, flags: Flags, result0: Result)
    returns (go: bool, s: nat, t: nat, result: Result)
    requires s0 < sourceEnd <= |source| && t0 <= targetEnd <= target.Length
    modifies target
    ensures Passed(Step16to32(source[s0..sourceEnd], flags), targetEnd - t0, go, s0, s, t0, t, result0, result, old(target[..]), target[..])
  {
    hide Read16;
    var oldSource := s0;
    var c;
    c, s := ReadCharacter16(source, s0, sourceEnd, flags);
    if c.Unreadable? {
      return false, s, t0, c.result;
    }
    if t0 >= targetEnd {
      s := oldSource;
      return false, s, t0, TargetExhausted;
    }
    t := WriteUnit(target, t0, c.ch);
    go, result := true, result0;
  }

  method Pass16to8(
    source: seq<bv16>, sourceEnd: nat, s0: nat, target: array<bv8>, targetEnd: nat, t0: nat, flags: Flags, result0: Result)
    returns (go: bool, s: nat, t: nat, result: Result)
    requires s0 < sourceEnd <= |source| && t0 <= targetEnd <= target.Length
    modifies target
    ensures Passed(Step16to8(source[s0..sourceEnd], flags), targetEnd - t0, go, s0, s, t0, t, result0, result, old(target[..]), target[..])
  {
    hide WrittenBytes, Splice, Read16;
    var oldSource := s0;
    var c;
    c, s := ReadCharacter16(source, s0, sourceEnd, flags);
    if c.Unreadable? {
      return false, s, t0, c.result;
    }
    go, t := WriteCharacter8(target, t0, targetEnd, c.ch);
    if !go {
      s := oldSource;
      return false, s, t0, TargetExhausted;
    }
    result := result0;
  }

  lemma Cases8to16(s: seq<bv8>, flags: Flags)
    requires s != []
    ensures Step8to16(s, flags) ==
            match Read8(s)
            case Unreadable(result) => Halt(result, 0)
            case Character(ch, n) =>
              if flags.Strict? && (0xD800 <= ch <= 0xDFFF || ch > 0x10FFFF) then Halt(SourceIllegal, 1)
              else Take(n, Units16(ch), |Units16(ch)|, false)
  {}

  method Pass8to16(
    source: seq<bv8>, sourceEnd: nat, s0: nat, target: array<bv16>, targetEnd: nat, t0: nat, flags: Flags, result0: Result)
    returns (go: bool, s: nat, t: nat, result: Result)
    requires s0 < sourceEnd <= |source| && t0 <= targetEnd <= target.Length
    modifies target
    ensures Passed(Step8to16(source[s0..sourceEnd], flags), targetEnd - t0, go, s0, s, t0, t, result0, result, old(target[..]), target[..])
  {
    hide Step8to16, Units16, UnitsOf, Splice, Read8;
    Cases8to16(source[s0..sourceEnd], flags);
    var c := ReadCharacter8(source, s0, sourceEnd);
    if c.Unreadable? {
      return false, s0, t0, c.result;
    }
    var ch := c.ch;
    go, s, t, result := true, s0 + c.units, t0, result0;
    if t >= targetEnd {
      return false, s0, t, TargetExhausted;
    }
    if flags.Strict? && (0xD800 <= ch <= 0xDFFF || ch > 0x10FFFF) {
      return false, s0, t, SourceIllegal;
    }
    go, t := WriteCharacter16(target, t, targetEnd, ch);
    if !go {
      return false, s0, t, TargetExhausted;
    }
  }

  method Pass32to8(
    source: seq<bv32>, sourceEnd: nat, s0: nat, target: array<bv8>, targetEnd: nat, t0: nat, flags: Flags, result0: Result)
    returns (go: bool, s: nat, t: nat, result: Result)
    requires s0 < sourceEnd <= |source| && t0 <= targetEnd <= target.Length
    modifies target
    ensures Passed(Step32to8(source[s0..sourceEnd], flags), targetEnd - t0, go, s0, s, t0, t, result0, result, old(target[..]), target[..])
  {
    hide WrittenBytes, Splice;
    var ch := source[s0];
    if flags.Strict? && Surrogate(ch) {
      return false, s0, t0, SourceIllegal;
    }
    result := if ch > 0x10FFFF then SourceIllegal else result0;
    go, t := WriteCharacter8(target, t0, targetEnd, ch);
    if !go {
      return false, s0, t0, TargetExhausted;
    }
    s := s0 + 1;
  }

  method Pass8to32(
    source: seq<bv8>, sourceEnd: nat, s0: nat, target: array<bv32>, targetEnd: nat, t0: nat, flags: Flags, result0: Result)
    returns (go: bool, s: nat, t: nat, result: Result)
    requires s0 < sourceEnd <= |source| && t0 <= targetEnd <= target.Length
    modifies target
    ensures Passed(Step8to32(source[s0..sourceEnd], flags), targetEnd - t0, go, s0, s, t0, t, result0, result, old(target[..]), target[..])
  {
    var c := ReadCharacter8(source, s0, sourceEnd);
    if c.Unreadable? {
      return false, s0, t0, c.result;
    }
    var ch := c.ch;
    go, s, t, result := true, s0 + c.units, t0, result0;
    if t >= targetEnd {
      return false, s0, t, TargetExhausted;
    }
    if ch <= 0x10FFFF {
      if 0xD800 <= ch <= 0xDFFF {
        if flags.Strict? {
          return false, s0, t, SourceIllegal;
        } else {
          t := WriteUnit(target, t, REPLACEMENT);
        }
      } else {
        t := WriteUnit(target, t, ch);
      }
    } else {
      result := SourceIllegal;
      t := WriteUnit(target, t, REPLACEMENT);
    }
  }

  // ---- the converters

  method ConvertUTF32toUTF16(
    source: seq<bv32>, sourceStart: nat, sourceEnd: nat, target: array<bv16>, targetStart: nat, targetEnd: nat, flags: Flags)
    returns (result: Result, s: nat, t: nat)
    requires sourceStart <= sourceEnd <= |source| && targetStart <= targetEnd <= target.Length
    modifies target
    ensures Converter(From32to16(flags))
    ensures Report(result, s, t, target[..])
         == Converted(From32to16(flags), source[sourceStart..sourceEnd], targetEnd - targetStart, sourceStart, targetStart, old(target[..]))
  {
    hide From32to16, Step32to16, Converted, Converter, HaltsWithError, Going, Passed;
    Bounded32to16(flags);
    ghost var job := Job(From32to16(flags), source[sourceStart..sourceEnd], sourceStart, target[..], targetStart, targetEnd - targetStart);
    ghost var done: seq<bv16> := [];
    Starts(job);
    result, s, t := ConversionOK, sourceStart, targetStart;
    while s < sourceEnd
      invariant sourceStart <= s <= sourceEnd && t <= targetEnd && Going(job, s, t, result, target[..], done)
    {
      ghost var s0, t0, result0, mid := s, t, result, target[..];
      Applied32to16(source, sourceStart, s, sourceEnd, flags);
      var go: bool;
      go, s, t, result := Pass32to16(source, sourceEnd, s, target, targetEnd, t, flags, result);
      done := Proceeds(job, go, s0, s, t0, t, result0, result, mid, target[..], done);
      if !go {
        return;
      }
    }
    Ends(job, s, t, result, target[..], done);
  }

  lemma Applied32to16(source: seq<bv32>, sourceStart: nat, s: nat, sourceEnd: nat, flags: Flags)
    requires sourceStart <= s < sourceEnd <= |source|
    ensures From32to16(flags)(source[sourceStart..sourceEnd][s - sourceStart..]) == Step32to16(source[s..sourceEnd], flags)
  {
    assert source[sourceStart..sourceEnd][s - sourceStart..] == source[s..sourceEnd];
  }

  method ConvertUTF16toUTF32(
    source: seq<bv16>, sourceStart: nat, sourceEnd: nat, target: array<bv32>, targetStart: nat, targetEnd: nat, flags: Flags)
    returns (result: Result, s: nat, t: nat)
    requires sourceStart <= sourceEnd <= |source| && targetStart <= targetEnd <= target.Length
    modifies target
    ensures Converter(From16to32(flags))
    ensures Report(result, s, t, target[..])
         == Converted(From16to32(flags), source[sourceStart..sourceEnd], targetEnd - targetStart, sourceStart, targetStart, old(target[..]))
  {
    hide From16to32, Step16to32, Converted, Converter, HaltsWithError, Going, Passed;
    Bounded16to32(flags);
    ghost var job := Job(From16to32(flags), source[sourceStart..sourceEnd], sourceStart, target[..], targetStart, targetEnd - targetStart);
    ghost var done: seq<bv32> := [];
    Starts(job);
    result, s, t := ConversionOK, sourceStart, targetStart;
    while s < sourceEnd
      invariant sourceStart <= s <= sourceEnd && t <= targetEnd && Going(job, s, t, result, target[..], done)
    {
      ghost var s0, t0, result0, mid := s, t, result, target[..];
      Applied16to32(source, sourceStart, s, sourceEnd, flags);
      var go: bool;
      go, s, t, result := Pass16to32(source, sourceEnd, s, target, targetEnd, t, flags, result);
      done := Proceeds(job, go, s0, s, t0, t, result0, result, mid, target[..], done);
      if !go {
        return;
      }
    }
    Ends(job, s, t, result, target[..], done);
  }

  lemma Applied16to32(source: seq<bv16>, sourceStart: nat, s: nat, sourceEnd: nat, flags: Flags)
    requires sourceStart <= s < sourceEnd <= |source|
    ensures From16to32(flags)(source[sourceStart..sourceEnd][s - sourceStart..]) == Step16to32(source[s..sourceEnd], flags)
  {
    assert source[sourceStart..sourceEnd][s - sourceStart..] == source[s..sourceEnd];
  }

  method ConvertUTF16toUTF8(
    source: seq<bv16>, sourceStart: nat, sourceEnd: nat, target: array<bv8>, targetStart: nat, targetEnd: nat, flags: Flags)
    returns (result: Result, s: nat, t: nat)
    requires sourceStart <= sourceEnd <= |source| && targetStart <= targetEnd <= target.Length
    modifies target
    ensures Converter(From16to8(flags))
    ensures Report(result, s, t, target[..])
         == Converted(From16to8(flags), source[sourceStart..sourceEnd], targetEnd - targetStart, sourceStart, targetStart, old(target[..]))
  {
    hide From16to8, Step16to8, Converted, Converter, HaltsWithError, Going, Passed;
    Bounded16to8(flags);
    ghost var job := Job(From16to8(flags), source[sourceStart..sourceEnd], sourceStart, target[..], targetStart, targetEnd - targetStart);
    ghost var done: seq<bv8> := [];
    Starts(job);
    result, s, t := ConversionOK, sourceStart, targetStart;
    while s < sourceEnd
      invariant sourceStart <= s <= sourceEnd && t <= targetEnd && Going(job, s, t, result, target[..], done)
    {
      ghost var s0, t0, result0, mid := s, t, result, target[..];
      Applied16to8(source, sourceStart, s, sourceEnd, flags);
      var go: bool;
      go, s, t, result := Pass16to8(source, sourceEnd, s, target, targetEnd, t, flags, result);
      done := Proceeds(job, go, s0, s, t0, t, result0, result, mid, target[..], done);
      if !go {
        return;
      }
    }
    Ends(job, s, t, result, target[..], done);
  }

  lemma Applied16to8(source: seq<bv16>, sourceStart: nat, s: nat, sourceEnd: nat, flags: Flags)
    requires sourceStart <= s < sourceEnd <= |source|
    ensures From16to8(flags)(source[sourceStart..sourceEnd][s - sourceStart..]) == Step16to8(source[s..sourceEnd], flags)
  {
    assert source[sourceStart..sourceEnd][s - sourceStart..] == source[s..sourceEnd];
  }

  method ConvertUTF8toUTF16(
    source: seq<bv8>, sourceStart: nat, sourceEnd: nat, target: array<bv16>, targetStart: nat, targetEnd: nat, flags: Flags)
    returns (result: Result, s: nat, t: nat)
    requires sourceStart <= sourceEnd <= |source| && targetStart <= targetEnd <= target.Length
    modifies target
    ensures Converter(From8to16(flags))
    ensures Report(result, s, t, target[..])
         == Converted(From8to16(flags), source[sourceStart..sourceEnd], targetEnd - targetStart, sourceStart, targetStart, old(target[..]))
  {
    hide From8to16, Step8to16, Converted, Converter, HaltsWithError, Going, Passed;
    Bounded8to16(flags);
    ghost var job := Job(From8to16(flags), source[sourceStart..sourceEnd], sourceStart, target[..], targetStart, targetEnd - targetStart);
    ghost var done: seq<bv16> := [];
    Starts(job);
    result, s, t := ConversionOK, sourceStart, targetStart;
    while s < sourceEnd
      invariant sourceStart <= s <= sourceEnd && t <= targetEnd && Going(job, s, t, result, target[..], done)
    {
      ghost var s0, t0, result0, mid := s, t, result, target[..];
      Applied8to16(source, sourceStart, s, sourceEnd, flags);
      var go: bool;
      go, s, t, result := Pass8to16(source, sourceEnd, s, target, targetEnd, t, flags, result);
      done := Proceeds(job, go, s0, s, t0, t, result0, result, mid, target[..], done);
      if !go {
        return;
      }
    }
    Ends(job, s, t, result, target[..], done);
  }

  lemma Applied8to16(source: seq<bv8>, sourceStart: nat, s: nat, sourceEnd: nat, flags: Flags)
    requires sourceStart <= s < sourceEnd <= |source|
    ensures From8to16(flags)(source[sourceStart..sourceEnd][s - sourceStart..]) == Step8to16(source[s..sourceEnd], flags)
  {
    assert source[sourceStart..sourceEnd][s - sourceStart..] == source[s..sourceEnd];
  }

  method ConvertUTF32toUTF8(
    source: seq<bv32>, sourceStart: nat, sourceEnd: nat, target: array<bv8>, targetStart: nat, targetEnd: nat, flags: Flags)
    returns (result: Result, s: nat, t: nat)
    requires sourceStart <= sourceEnd <= |source| && targetStart <= targetEnd <= target.Length
    modifies target
    ensures Converter(From32to8(flags))
    ensures Report(result, s, t, target[..])
         == Converted(From32to8(flags), source[sourceStart..sourceEnd], targetEnd - targetStart, sourceStart, targetStart, old(target[..]))
  {
    hide From32to8, Step32to8, Converted, Converter, HaltsWithError, Going, Passed;
    Bounded32to8(flags);
    ghost var job := Job(From32to8(flags), source[sourceStart..sourceEnd], sourceStart, target[..], targetStart, targetEnd - targetStart);
    ghost var done: seq<bv8> := [];
    Starts(job);
    result, s, t := ConversionOK, sourceStart, targetStart;
    while s < sourceEnd
      invariant sourceStart <= s <= sourceEnd && t <= targetEnd && Going(job, s, t, result, target[..], done)
    {
      ghost var s0, t0, result0, mid := s, t, result, target[..];
      Applied32to8(source, sourceStart, s, sourceEnd, flags);
      var go: bool;
      go, s, t, result := Pass32to8(source, sourceEnd, s, target, targetEnd, t, flags, result);
      done := Proceeds(job, go, s0, s, t0, t, result0, result, mid, target[..], done);
      if !go {
        return;
      }
    }
    Ends(job, s, t, result, target[..], done);
  }

  lemma Applied32to8(source: seq<bv32>, sourceStart: nat, s: nat, sourceEnd: nat, flags: Flags)
    requires sourceStart <= s < sourceEnd <= |source|
    ensures From32to8(flags)(source[sourceStart..sourceEnd][s - sourceStart..]) == Step32to8(source[s..sourceEnd], flags)
  {
    assert source[sourceStart..sourceEnd][s - sourceStart..] == source[s..sourceEnd];
  }

  method ConvertUTF8toUTF32(
    source: seq<bv8>, sourceStart: nat, sourceEnd: nat, target: array<bv32>, targetStart: nat, targetEnd: nat, flags: Flags)
    returns (result: Result, s: nat, t: nat)
    requires sourceStart <= sourceEnd <= |source| && targetStart <= targetEnd <= target.Length
    modifies target
    ensures Converter(From8to32(flags))
    ensures Report(result, s, t, target[..])
         == Converted(From8to32(flags), source[sourceStart..sourceEnd], targetEnd - targetStart, sourceStart, targetStart, old(target[..]))
  {
    hide From8to32, Step8to32, Converted, Converter, HaltsWithError, Going, Passed;
    Bounded8to32(flags);
    ghost var job := Job(From8to32(flags), source[sourceStart..sourceEnd], sourceStart, target[..], targetStart, targetEnd - targetStart);
    ghost var done: seq<bv32> := [];
    Starts(job);
    result, s, t := ConversionOK, sourceStart, targetStart;
    while s < sourceEnd
      invariant sourceStart <= s <= sourceEnd && t <= targetEnd && Going(job, s, t, result, target[..], done)
    {
      ghost var s0, t0, result0, mid := s, t, result, target[..];
      Applied8to32(source, sourceStart, s, sourceEnd, flags);
      var go: bool;
      go, s, t, result := Pass8to32(source, sourceEnd, s, target, targetEnd, t, flags, result);
      done := Proceeds(job, go, s0, s, t0, t, result0, result, mid, target[..], done);
      if !go {
        return;
      }
    }
    Ends(job, s, t, result, target[..], done);
  }

  lemma Applied8to32(source: seq<bv8>, sourceStart: nat, s: nat, sourceEnd: nat, flags: Flags)
    requires sourceStart <= s < sourceEnd <= |source|
    ensures From8to32(flags)(source[sourceStart..sourceEnd][s - sourceStart..]) == Step8to32(source[s..sourceEnd], flags)
  {
    assert source[sourceStart..sourceEnd][s - sourceStart..] == source[s..sourceEnd];
  }
}

/** The character-stream tokenizer of the DIMACS front end (streambuffer.h), over the in-memory
    reader `CH`: the source is a C string, modelled as a sequence of bytes whose end stands for the
    terminating NUL. The stream keeps a chunk buffer that it refills from the source whenever the
    current chunk is used up. */
module StreamBuffer {

  /** A byte of the source, as stored in a C `char`. */
  newtype byte = x: int | 0 <= x < 256

  /** Size of the chunk buffer (`chunk_limit`). */
  const ChunkLimit: nat := 148576

  /** The value `operator*` returns past the end of the input. */
  const EOF: int := -1

  /** The largest value of an `int32_t`. */
  const Int32Max: int := 0x7fff_ffff

  const Tab: byte := 9
  const Newline: byte := 10
  const CarriageReturn: byte := 13
  const Space: byte := 32
  const Plus: byte := 43
  const Minus: byte := 45
  const Dot: byte := 46
  const Zero: byte := 48
  const Nine: byte := 57

  /** The `int` a (signed) `char` holding `b` converts to: bytes 128..255 become negative, so the
      byte 0xFF reads as EOF. */
  function AsInt(b: byte): (r: int)
    ensures -128 <= r < 128
    ensures r == EOF <==> b == 255
    ensures AsChar(r) == b
  {
    if b < 128 then b as int else b as int - 256
  }

  /** The `char` an `int` such as `operator*`'s result converts back to (keeps the low 8 bits). */
  function AsChar(i: int): byte
  {
    (i % 256) as byte
  }

  // ---------------------------------------------------------------------------------------------
  // The source string

  /** The C string that starts at index `at` of `text`: the bytes up to the first NUL, or to the end. */
  function CString(text: seq<byte>, at: nat): (s: seq<byte>)
    ensures forall k :: 0 <= k < |s| ==> s[k] != 0
    ensures at + |s| <= |text| || s == []
    decreases |text| - at
  {
    if at >= |text| || text[at] == 0 then [] else [text[at]] + CString(text, at + 1)
  }

  /** The C string at `at` begins with the byte at `at`, and dropping it leaves the C string at `at + 1`. */
  lemma CStringStep(text: seq<byte>, at: nat)
    requires CString(text, at) != []
    ensures at < |text| && text[at] != 0
    ensures CString(text, at) == [text[at]] + CString(text, at + 1)
  {
  }

  /** `CH::read`: copies characters of the source into `buf` until `num * count` have been copied
      or the source reaches its NUL; the source pointer `at` advances by the number copied. */
  method ChRead(buf: array<byte>, num: nat, count: nat, text: seq<byte>, at: nat)
      returns (read: nat, at': nat)
    requires num * count <= buf.Length
    modifies buf
    ensures at' == at + read
    ensures read <= num * count
    ensures read == num * count || CString(text, at') == []
    ensures CString(text, at) == buf[..read] + CString(text, at')
    ensures buf[read..] == old(buf[read..])
  {
    var toread := num * count;
    read, at' := 0, at;
    while at' < |text| && text[at'] != 0 && read < toread
      invariant read <= toread && at' == at + read
      invariant CString(text, at) == buf[..read] + CString(text, at')
      invariant buf[read..] == old(buf[read..])
      decreases toread - read
    {
      CStringStep(text, at');
      buf[read] := text[at'];
      at' := at' + 1;
      read := read + 1;
    }
  }

  // ---------------------------------------------------------------------------------------------
  // What each tokenizer operation does to the remaining input, as functions of that input

  predicate IsBlank(b: byte) { b == Tab || b == CarriageReturn || b == Space }

  predicate IsDigit(b: byte) { Zero <= b <= Nine }

  /** `operator*` on the remaining input `s`. */
  function Head(s: seq<byte>): int {
    if s == [] then EOF else AsInt(s[0])
  }

  /** Number of bytes `skipWhitespace` consumes from `s`. */
  function BlankRun(s: seq<byte>): (n: nat)
    ensures n <= |s|
  {
    if s != [] && IsBlank(s[0]) then 1 + BlankRun(s[1..]) else 0
  }

  /** Whether `skipLine` and `skipEOL` stop at the head of `s` without consuming: EOF (end of input,
      or the byte 0xFF that reads as EOF) or NUL. */
  predicate AtLineStop(s: seq<byte>) {
    Head(s) == EOF || Head(s) == 0
  }

  /** Number of bytes `skipLine` consumes from `s`. */
  function LineSkip(s: seq<byte>): (n: nat)
    ensures n <= |s|
  {
    if AtLineStop(s) then 0
    else if s[0] == Newline then 1
    else 1 + LineSkip(s[1..])
  }

  /** The outcome of `skipEOL` on `s`: its result and the number of bytes it consumes. */
  function EolSkip(s: seq<byte>): (r: (bool, nat))
    ensures r.1 <= |s|
  {
    if AtLineStop(s) then (true, 0)
    else if s[0] == Newline then (true, 1)
    else if s[0] != CarriageReturn then (false, 0)
    else var t := EolSkip(s[1..]); (t.0, t.1 + 1)
  }

  /** Number of leading digits of `s`. */
  function DigitRun(s: seq<byte>): (n: nat)
    ensures n <= |s|
    ensures forall k :: 0 <= k < n ==> IsDigit(s[k])
    ensures n < |s| ==> !IsDigit(s[n])
  {
    if s != [] && IsDigit(s[0]) then 1 + DigitRun(s[1..]) else 0
  }

  /** The word `parseString` collects from `s` (after its blanks are skipped): the longest prefix
      holding no space, no newline and nothing that reads as EOF. */
  function WordRun(s: seq<byte>): (n: nat)
    ensures n <= |s|
  {
    if s != [] && s[0] != Space && s[0] != Newline && AsInt(s[0]) != EOF then 1 + WordRun(s[1..]) else 0
  }

  /** Dropping the head of the input from position `k`. */
  lemma DropOne(s: seq<byte>, k: nat)
    requires k < |s|
    ensures s[k..][1..] == s[k + 1..]
    ensures s[..k + 1] == s[..k] + [s[k]]
    ensures Head(s[k..]) == AsInt(s[k])
  {
  }

  /** One more blank of a blank run. */
  lemma BlankStep(s: seq<byte>, k: nat)
    requires k <= |s| && IsBlank(AsChar(Head(s[k..])))
    ensures k < |s| && s[k..][1..] == s[k + 1..]
    ensures BlankRun(s[k..]) == 1 + BlankRun(s[k + 1..])
  {
    DropOne(s, k);
  }

  /** One more byte of a line `skipLine` consumes. */
  lemma LineStep(s: seq<byte>, k: nat)
    requires k <= |s| && !AtLineStop(s[k..])
    ensures k < |s| && s[k..][1..] == s[k + 1..] && Head(s[k..]) == AsInt(s[k])
    ensures LineSkip(s[k..]) == if s[k] == Newline then 1 else 1 + LineSkip(s[k + 1..])
  {
    DropOne(s, k);
  }

  /** One more byte `skipEOL` consumes. */
  lemma EolStep(s: seq<byte>, k: nat)
    requires k <= |s| && !AtLineStop(s[k..])
    ensures k < |s| && s[k..][1..] == s[k + 1..] && Head(s[k..]) == AsInt(s[k])
    ensures EolSkip(s[k..]) == if s[k] == Newline then (true, 1)
                               else if s[k] != CarriageReturn then (false, 0)
                               else (EolSkip(s[k + 1..]).0, EolSkip(s[k + 1..]).1 + 1)
  {
    DropOne(s, k);
  }

  /** One more byte of a word. */
  lemma WordStep(s: seq<byte>, k: nat)
    requires k <= |s|
    requires Head(s[k..]) != Space as int && Head(s[k..]) != Newline as int && Head(s[k..]) != EOF
    ensures k < |s| && s[k..][1..] == s[k + 1..] && AsChar(Head(s[k..])) == s[k]
    ensures s[..k + 1] == s[..k] + [s[k]]
    ensures WordRun(s[k..]) == 1 + WordRun(s[k + 1..])
  {
    DropOne(s, k);
  }

  /** A slice of a slice. */
  lemma SliceOfSlice(s: seq<byte>, i: nat, j: nat)
    requires i + j <= |s|
    ensures s[i..][j..] == s[i + j..]
  {
  }

  // ---------------------------------------------------------------------------------------------
  // Integer parsing

  /** The value types `parseInt` is instantiated with: `int32_t` (its default) and the unbounded
      GMP integers and rationals that `parseDouble` uses. */
  datatype IntType = Int32 | Unbounded

  datatype Option<T> = None | Some(value: T)

  function DigitValue(b: byte): int { b as int - Zero as int }

  /** The decimal value of a run of digits, read left to right. */
  function DecimalValue(ds: seq<byte>): int
  {
    if ds == [] then 0 else DecimalValue(ds[..|ds| - 1]) * 10 + DigitValue(ds[|ds| - 1])
  }

  /** One accumulation step `val * 10 + digit` with the overflow test, for the corrected `int32_t`
      instance: the step fails exactly when the new value would not fit in an `int32_t`. */
  function Step(t: IntType, val: int, d: int): Option<int> {
    match t
    case Unbounded => Some(val * 10 + d)
    case Int32 => if val * 10 + d > Int32Max then None else Some(val * 10 + d)
  }

  /** A 32-bit two's complement wrap-around of `x`. */
  function Wrap32(x: int): (r: int)
    ensures -0x8000_0000 <= r <= Int32Max
  {
    var m := x % 0x1_0000_0000;
    if m > Int32Max then m - 0x1_0000_0000 else m
  }

  /** The accumulation step of `parseInt<int32_t>` as written: the new value is computed with
      wrap-around and the step fails only when it came out smaller than the old value. */
  function StepAsWritten(val: int, d: int): Option<int> {
    var val2 := Wrap32(val * 10 + d);
    if val2 < val then None else Some(val2)
  }

  /** Folds the steps of `t` over a run of digits; `None` when some step fails. */
  function Accumulate(t: IntType, ds: seq<byte>): Option<int>
  {
    if ds == [] then Some(0)
    else match Accumulate(t, ds[..|ds| - 1])
      case None => None
      case Some(v) => Step(t, v, DigitValue(ds[|ds| - 1]))
  }

  /** Folds the as-written `int32_t` step over a run of digits. */
  function AccumulateAsWritten(ds: seq<byte>): Option<int>
  {
    if ds == [] then Some(0)
    else match AccumulateAsWritten(ds[..|ds| - 1])
      case None => None
      case Some(v) => StepAsWritten(v, DigitValue(ds[|ds| - 1]))
  }

  /** `skipWhitespace` consumes blanks only, and all of them. */
  lemma {:induction false} BlankRunMeaning(s: seq<byte>)
    ensures forall k :: 0 <= k < BlankRun(s) ==> IsBlank(s[k])
    ensures BlankRun(s) < |s| ==> !IsBlank(s[BlankRun(s)])
  {
    if s != [] && IsBlank(s[0]) {
      BlankRunMeaning(s[1..]);
    }
  }

  /** `skipLine` consumes up to and including the first newline, stopping early before EOF or NUL:
      no byte it consumes is a stop and only the last may be a newline. */
  lemma {:induction false} LineSkipMeaning(s: seq<byte>)
    ensures var n := LineSkip(s);
      && (forall k :: 0 <= k < n ==> !AtLineStop(s[k..]))
      && (forall k :: 0 <= k < n - 1 ==> s[k] != Newline)
      && ((n > 0 && s[n - 1] == Newline) || AtLineStop(s[n..]))
  {
    if !AtLineStop(s) && s[0] != Newline {
      LineSkipMeaning(s[1..]);
      var n := LineSkip(s);
      forall k | 1 <= k < n
        ensures !AtLineStop(s[k..])
      {
        assert s[1..][k - 1..] == s[k..];
      }
      forall k | 1 <= k < n - 1
        ensures s[k] != Newline
      {
        assert s[1..][k - 1] == s[k];
      }
      assert s[1..][n - 1..] == s[n..];
    }
  }

  /** Number of leading carriage returns of `s`. */
  function CrRun(s: seq<byte>): (n: nat)
    ensures n <= |s|
    ensures forall k :: 0 <= k < n ==> s[k] == CarriageReturn
    ensures n < |s| ==> s[n] != CarriageReturn
  {
    if s != [] && s[0] == CarriageReturn then 1 + CrRun(s[1..]) else 0
  }

  /** `skipEOL` consumes the carriage returns; it succeeds exactly when EOF, NUL or a newline comes
      next, and consumes the newline too. */
  lemma {:induction false} EolSkipMeaning(s: seq<byte>)
    ensures var c := CrRun(s);
      var t := s[c..];
      EolSkip(s) == if AtLineStop(t) then (true, c)
                    else if t[0] == Newline then (true, c + 1)
                    else (false, c)
  {
    if !AtLineStop(s) && s[0] == CarriageReturn {
      EolSkipMeaning(s[1..]);
      assert s[1..][CrRun(s[1..])..] == s[CrRun(s)..];
    }
  }

  /** `parseString` collects no space, newline or EOF byte, and stops at the first one. */
  lemma {:induction false} WordRunMeaning(s: seq<byte>)
    ensures forall k :: 0 <= k < WordRun(s) ==> s[k] != Space && s[k] != Newline && AsInt(s[k]) != EOF
    ensures WordRun(s) < |s| ==> s[WordRun(s)] == Space || s[WordRun(s)] == Newline || AsInt(s[WordRun(s)]) == EOF
  {
    if s != [] && s[0] != Space && s[0] != Newline && AsInt(s[0]) != EOF {
      WordRunMeaning(s[1..]);
    }
  }

  /** `parseInt` in terms of its digit loop, from the first byte after the sign. */
  lemma ParseIntByLoop(t: IntType, s: seq<byte>)
    ensures var e := SignEnd(s);
      var u := s[e..];
      ParseIntOf(t, s) ==
        if !(Zero <= AsChar(Head(u)) <= Nine) then IntParse(false, 0, 0, e)
        else
          var r := DigitLoop(t, u, 0, 0);
          IntParse(r.ok, if Negative(s) then -r.value else r.value, r.digits, e + r.consumed)
  {
    var u := s[SignEnd(s)..];
    if u != [] {
      DropOne(u, 0);
    }
  }

  /** The corrected accumulation yields the decimal value of the digits exactly when the type can
      hold it, and fails otherwise. */
  lemma {:induction false} AccumulateIsDecimal(t: IntType, ds: seq<byte>)
    ensures Accumulate(t, ds) == if t == Int32 && DecimalValue(ds) > Int32Max then None
                                 else Some(DecimalValue(ds))
  {
    if ds != [] {
      var init := ds[..|ds| - 1];
      AccumulateIsDecimal(t, init);
    }
  }

  /** The digits of "10000000000". */
  function TenDigits(): (ds: seq<byte>)
  {
    [49, 48, 48, 48, 48, 48, 48, 48, 48, 48, 48]
  }

  /** The as-written overflow test lets "10000000000" through: ten to the tenth does not fit in an
      `int32_t`, yet the accumulation succeeds and yields 1410065408. */
  lemma AsWrittenMissesOverflow()
    ensures DecimalValue(TenDigits()) == 10000000000 > Int32Max
    ensures AccumulateAsWritten(TenDigits()) == Some(1410065408)
  {
    var p := [49];
    assert p[..0] == [];
    assert AccumulateAsWritten(p) == Some(1) && DecimalValue(p) == 1;
    ZeroStep(p, 1);
    p := p + [Zero];
    ZeroStep(p, 10);
    p := p + [Zero];
    ZeroStep(p, 100);
    p := p + [Zero];
    ZeroStep(p, 1000);
    p := p + [Zero];
    ZeroStep(p, 10000);
    p := p + [Zero];
    ZeroStep(p, 100000);
    p := p + [Zero];
    ZeroStep(p, 1000000);
    p := p + [Zero];
    ZeroStep(p, 10000000);
    p := p + [Zero];
    ZeroStep(p, 100000000);
    p := p + [Zero];
    WrapStep(p);
    p := p + [Zero];
    assert p == TenDigits();
  }

  /** A zero digit that keeps the value within `int32_t` multiplies it by ten on both readings. */
  lemma ZeroStep(p: seq<byte>, v: int)
    requires AccumulateAsWritten(p) == Some(v) && DecimalValue(p) == v
    requires 0 <= v && v * 10 <= Int32Max
    ensures AccumulateAsWritten(p + [Zero]) == Some(v * 10) && DecimalValue(p + [Zero]) == v * 10
  {
    AppendZero(p, v, v);
  }

  /** The tenth zero: ten to the tenth wraps to 1410065408, which exceeds ten to the ninth, so the
      as-written test lets it through. */
  lemma WrapStep(p: seq<byte>)
    requires AccumulateAsWritten(p) == Some(1000000000) && DecimalValue(p) == 1000000000
    ensures AccumulateAsWritten(p + [Zero]) == Some(1410065408) && DecimalValue(p + [Zero]) == 10000000000
  {
    AppendZero(p, 1000000000, 1000000000);
    assert Wrap32(10000000000) == 1410065408;
  }

  /** Appending a zero digit multiplies the decimal value by ten and takes one as-written step. */
  lemma AppendZero(p: seq<byte>, v: int, d: int)
    requires AccumulateAsWritten(p) == Some(v) && DecimalValue(p) == d
    ensures AccumulateAsWritten(p + [Zero]) == StepAsWritten(v, 0)
    ensures DecimalValue(p + [Zero]) == d * 10
  {
    assert (p + [Zero])[..|p|] == p;
  }

  /** Ten to the power n. */
  function Pow10(n: nat): (p: int)
    ensures p >= 1
  {
    if n == 0 then 1 else 10 * Pow10(n - 1)
  }

  /** The result of `parseInt` on the remaining input: whether it succeeds, the value it stores,
      how many times it increments `*len`, and how many bytes it consumes. */
  datatype IntParse = IntParse(ok: bool, value: int, digits: nat, consumed: nat)

  /** The digit loop of `parseInt` from index `k` of `u`, with the value `val` accumulated so far. */
  function DigitLoop(t: IntType, u: seq<byte>, k: nat, val: int): (r: IntParse)
    requires k <= |u|
    ensures r.consumed <= |u|
    decreases |u| - k
  {
    if k < |u| && IsDigit(u[k]) then
      match Step(t, val, DigitValue(u[k]))
      case None => IntParse(false, 0, k + 1, k)
      case Some(v) => DigitLoop(t, u, k + 1, v)
    else IntParse(true, val, k, k)
  }

  /** One more digit of the digit loop. */
  lemma DigitStep(t: IntType, u: seq<byte>, k: nat, val: int)
    requires k <= |u| && Zero <= AsChar(Head(u[k..])) <= Nine
    ensures k < |u| && u[k..][1..] == u[k + 1..] && u[k] == AsChar(Head(u[k..]))
    ensures DigitLoop(t, u, k, val) == match Step(t, val, DigitValue(u[k]))
      case None => IntParse(false, 0, k + 1, k)
      case Some(v) => DigitLoop(t, u, k + 1, v)
  {
    DropOne(u, k);
  }

  /** The digit loop stops, successfully, at the first byte that is no digit. */
  lemma DigitStop(t: IntType, u: seq<byte>, k: nat, val: int)
    requires k <= |u| && !(Zero <= AsChar(Head(u[k..])) <= Nine)
    ensures DigitLoop(t, u, k, val) == IntParse(true, val, k, k)
  {
    if k < |u| {
      DropOne(u, k);
    }
  }

  /** Length of the blanks and optional sign `parseInt` consumes before the digits. */
  function SignEnd(s: seq<byte>): (n: nat)
    ensures n <= |s|
  {
    var b := BlankRun(s);
    if b < |s| && (s[b] == Minus || s[b] == Plus) then b + 1 else b
  }

  /** Whether the sign `parseInt` reads from `s` is a minus. */
  predicate Negative(s: seq<byte>) {
    var b := BlankRun(s);
    b < |s| && s[b] == Minus
  }

  /** `parseInt` on the remaining input `s`. */
  function ParseIntOf(t: IntType, s: seq<byte>): (r: IntParse)
    ensures r.consumed <= |s|
  {
    var e := SignEnd(s);
    var u := s[e..];
    if u == [] || !IsDigit(u[0]) then IntParse(false, 0, 0, e)
    else
      var r := DigitLoop(t, u, 0, 0);
      IntParse(r.ok, if Negative(s) then -r.value else r.value, r.digits, e + r.consumed)
  }

  /** On a full run of `n` digits starting at `k`, the digit loop gives the corrected accumulation of
      the whole run (or fails where it does), having consumed exactly the run when it succeeds. */
  lemma {:induction false} DigitLoopRun(t: IntType, u: seq<byte>, k: nat, val: int)
    requires k <= DigitRun(u)
    requires Accumulate(t, u[..k]) == Some(val)
    ensures var r := DigitLoop(t, u, k, val);
      var run := u[..DigitRun(u)];
      (r.ok <==> Accumulate(t, run).Some?) &&
      (r.ok ==> r.value == Accumulate(t, run).value && r.digits == |run| && r.consumed == |run|)
    decreases |u| - k
  {
    var n := DigitRun(u);
    if k < n {
      assert u[..k + 1][..k] == u[..k];
      match Step(t, val, DigitValue(u[k]))
      case None =>
        assert u[..n][..k + 1] == u[..k + 1];
        AccumulateFailsOnward(t, u[..n], k + 1);
      case Some(v) =>
        DigitLoopRun(t, u, k + 1, v);
    } else {
      assert u[..k] == u[..n];
    }
  }

  /** Once the accumulation of a prefix fails, that of every longer prefix fails too. */
  lemma {:induction false} AccumulateFailsOnward(t: IntType, ds: seq<byte>, k: nat)
    requires k <= |ds|
    requires Accumulate(t, ds[..k]) == None
    ensures Accumulate(t, ds) == None
    decreases |ds| - k
  {
    if k < |ds| {
      assert ds[..k + 1][..k] == ds[..k];
      AccumulateFailsOnward(t, ds, k + 1);
    } else {
      assert ds[..k] == ds;
    }
  }

  /** What `parseInt` promises: it succeeds exactly when, after the blanks and an optional sign,
      at least one digit follows and the whole digit run fits the type; the stored value is then the
      sign times the decimal value of the run, `*len` grows by the run's length and the run is
      consumed up to its end. */
  lemma ParseIntMeaning(t: IntType, s: seq<byte>)
    ensures var e := SignEnd(s);
      var u := s[e..];
      var run := u[..DigitRun(u)];
      var r := ParseIntOf(t, s);
      (r.ok <==> run != [] && !(t == Int32 && DecimalValue(run) > Int32Max)) &&
      (r.ok ==> r.value == (if Negative(s) then -DecimalValue(run) else DecimalValue(run))
                && r.digits == |run| && r.consumed == e + |run|)
  {
    var e := SignEnd(s);
    var u := s[e..];
    var run := u[..DigitRun(u)];
    AccumulateIsDecimal(t, run);
    if u != [] && IsDigit(u[0]) {
      assert u[..0] == [];
      DigitLoopRun(t, u, 0, 0);
    }
  }

  /** `parseDouble`'s value: the head plus the tail scaled down by its digit count. The sign of a
      negative head does not carry over to the fraction. */
  function DecimalOf(head: int, tail: int, len: nat): real {
    head as real + tail as real / Pow10(len) as real
  }

  /** The result of `parseDouble` on the remaining input: whether it succeeds, the value it stores
      and how many bytes it consumes. */
  datatype DoubleParse = DoubleParse(ok: bool, value: real, consumed: nat)

  /** `parseDouble` on the remaining input `s`. */
  function ParseDoubleOf(s: seq<byte>): (r: DoubleParse)
    ensures r.consumed <= |s|
  {
    var h := ParseIntOf(Unbounded, s);
    var s1 := s[h.consumed..];
    if !h.ok then DoubleParse(false, 0.0, h.consumed)
    else if Head(s1) != Dot as int then DoubleParse(true, h.value as real, h.consumed)
    else
      var tl := ParseIntOf(Unbounded, s1[1..]);
      DoubleParse(tl.ok, if tl.ok then DecimalOf(h.value, tl.value, tl.digits) else 0.0,
                  h.consumed + 1 + tl.consumed)
  }

  /** `parseDouble` when the head parses, up to index `k`, and a '.' follows it. */
  lemma ParseDoubleWithFraction(s: seq<byte>, k: nat)
    requires ParseIntOf(Unbounded, s).ok && ParseIntOf(Unbounded, s).consumed == k
    requires k < |s| && s[k] == Dot
    ensures var h := ParseIntOf(Unbounded, s);
      var tl := ParseIntOf(Unbounded, s[k + 1..]);
      ParseDoubleOf(s) == DoubleParse(tl.ok, if tl.ok then DecimalOf(h.value, tl.value, tl.digits) else 0.0,
                                      k + 1 + tl.consumed)
  {
    assert s[k..][1..] == s[k + 1..];
  }

  /** A run of exactly `n` digits. */
  lemma {:induction false} DigitRunExact(u: seq<byte>, n: nat)
    requires n <= |u| && forall k :: 0 <= k < n ==> IsDigit(u[k])
    requires n == |u| || !IsDigit(u[n])
    ensures DigitRun(u) == n
  {
    if n > 0 {
      DigitRunExact(u[1..], n - 1);
    }
  }

  /** `parseInt` on an optional minus, then `n` digits ending at the end of the input or at a byte
      that is no digit: the value is the signed decimal value of the digits. */
  lemma IntNotation(t: IntType, s: seq<byte>, neg: bool, n: nat)
    requires var e := if neg then 1 else 0;
      && 0 < n && e + n <= |s|
      && (neg ==> s[0] == Minus)
      && (forall k :: e <= k < e + n ==> IsDigit(s[k]))
      && (e + n == |s| || !IsDigit(s[e + n]))
      && !(t == Int32 && DecimalValue(s[e..e + n]) > Int32Max)
    ensures var e := if neg then 1 else 0;
      var v := DecimalValue(s[e..e + n]);
      ParseIntOf(t, s) == IntParse(true, if neg then -v else v, n, e + n)
  {
    var e := if neg then 1 else 0;
    assert BlankRun(s) == 0;
    var u := s[e..];
    DigitRunExact(u, n);
    assert u[..n] == s[e..e + n];
    ParseIntMeaning(t, s);
  }

  /** `parseDouble` on decimal notation: an optional minus, `n1` digits, a '.', `n2` digits, then
      the end of the input or a byte that is no digit. The value is the head plus the scaled tail,
      whatever the head's sign. */
  lemma DecimalNotation(s: seq<byte>, neg: bool, n1: nat, n2: nat)
    requires var e := if neg then 1 else 0;
      var d := e + n1;
      && 0 < n1 && 0 < n2 && d + 1 + n2 <= |s|
      && (neg ==> s[0] == Minus)
      && (forall k :: e <= k < d ==> IsDigit(s[k]))
      && s[d] == Dot
      && (forall k :: d < k <= d + n2 ==> IsDigit(s[k]))
      && (d + 1 + n2 == |s| || !IsDigit(s[d + 1 + n2]))
    ensures var e := if neg then 1 else 0;
      var d := e + n1;
      var head := DecimalValue(s[e..d]);
      ParseDoubleOf(s) == DoubleParse(true, DecimalOf(if neg then -head else head, DecimalValue(s[d + 1..d + 1 + n2]), n2),
                                      d + 1 + n2)
  {
    var e := if neg then 1 else 0;
    var d := e + n1;
    assert !IsDigit(s[d]);
    IntNotation(Unbounded, s, neg, n1);
    TailNotation(s, d + 1, n2);
    DoubleFromParts(s, d, ParseIntOf(Unbounded, s).value, DecimalValue(s[d + 1..d + 1 + n2]), n2);
  }

  /** The digits after the '.' parse, from the byte after it, to their decimal value. */
  lemma TailNotation(s: seq<byte>, a: nat, n: nat)
    requires 0 < n && a + n <= |s| && (forall k :: a <= k < a + n ==> IsDigit(s[k]))
    requires a + n == |s| || !IsDigit(s[a + n])
    ensures ParseIntOf(Unbounded, s[a..]) == IntParse(true, DecimalValue(s[a..a + n]), n, n)
  {
    ShiftedDigits(s, a, n);
    IntNotation(Unbounded, s[a..], false, n);
    SuffixSlice(s, a, n);
  }

  /** `parseDouble` from the parses of the head and of the fraction. */
  lemma DoubleFromParts(s: seq<byte>, k: nat, hv: int, tv: int, n: nat)
    requires ParseIntOf(Unbounded, s).ok && ParseIntOf(Unbounded, s).consumed == k
    requires ParseIntOf(Unbounded, s).value == hv
    requires k < |s| && s[k] == Dot
    requires ParseIntOf(Unbounded, s[k + 1..]) == IntParse(true, tv, n, n)
    ensures ParseDoubleOf(s) == DoubleParse(true, DecimalOf(hv, tv, n), k + 1 + n)
  {
    ParseDoubleWithFraction(s, k);
  }

  /** The first `n` bytes of `s[a..]` are `s[a..a + n]`. */
  lemma SuffixSlice(s: seq<byte>, a: nat, n: nat)
    requires a + n <= |s|
    ensures s[a..][0..0 + n] == s[a..a + n]
  {
  }

  /** A digit run at offset `a` of `s` is a digit run at the start of `s[a..]`. */
  lemma ShiftedDigits(s: seq<byte>, a: nat, n: nat)
    requires a + n <= |s| && (forall k :: a <= k < a + n ==> IsDigit(s[k]))
    requires a + n == |s| || !IsDigit(s[a + n])
    ensures var t := s[a..];
      && n <= |t| && (forall k :: 0 <= k < n ==> IsDigit(t[k]))
      && (n == |t| || !IsDigit(t[n]))
  {
  }

  /** "-1.5" parses to -1/2: the fraction is added to the negative head. */
  lemma NegativeHeadAddsFraction(s: seq<byte>)
    requires |s| == 4 && s[0] == Minus && s[1] == 49 && s[2] == Dot && s[3] == 53
    ensures ParseDoubleOf(s).ok && ParseDoubleOf(s).value == -0.5
  {
    DecimalNotation(s, true, 1, 1);
    OneDigitRun(s, 1);
    OneDigitRun(s, 3);
    MinusOneAndAHalf();
  }

  /** A run of one digit is worth that digit. */
  lemma OneDigitRun(s: seq<byte>, k: nat)
    requires k < |s|
    ensures DecimalValue(s[k..k + 1]) == DigitValue(s[k])
  {
    var r := s[k..k + 1];
    assert r[..|r| - 1] == [];
  }

  lemma MinusOneAndAHalf()
    ensures DecimalOf(-1, 5, 1) == -0.5
  {
    assert Pow10(1) == 10;
  }

  // ---------------------------------------------------------------------------------------------
  // The stream

  /** `StreamBuffer<const char*, CH>`: a chunk buffer `buf` with read position `pos` and fill `size`,
      refilled from the source string `text`, of which the reader has consumed up to `at`. */
  class StreamBuffer {
    const text: seq<byte>
    var at: nat
    var buf: array<byte>
    var pos: int
    var size: int
    /** The input still to be read: the rest of the chunk, then the rest of the source. */
    ghost var rest: seq<byte>

    /** The chunk is well formed and `rest` is what it and the source still hold. */
    ghost predicate Stable()
      reads this, buf
    {
      && buf.Length == ChunkLimit
      && 0 <= pos
      && 0 <= size <= buf.Length
      && rest == (if pos < size then buf[pos..size] else []) + CString(text, at)
    }

    /** Between operations the read position lies inside the chunk, or the chunk is empty and so is
        the rest of the source. */
    ghost predicate Valid()
      reads this, buf
    {
      && Stable()
      && pos <= size
      && (pos == size ==> size == 0 && CString(text, at) == [])
    }

    /** `StreamBuffer(i)`: an empty chunk over the source, then a first refill. */
    constructor (source: seq<byte>)
      ensures Valid() && fresh(buf)
      ensures text == source && rest == CString(source, 0)
    {
      text := source;
      at := 0;
      buf := new byte[ChunkLimit];
      pos, size := 0, 0;
      rest := CString(source, 0);
      new;
      AssureLookahead();
    }

    /** `assureLookahead`: when the chunk is used up, refill it from position 0. */
    method AssureLookahead()
      requires Stable()
      modifies this`pos, this`size, this`at, buf
      ensures Valid()
      ensures old(pos) < old(size) ==> pos == old(pos) && size == old(size) && at == old(at)
      ensures old(pos) >= old(size) ==> pos == 0
    {
      if pos >= size {
        pos := 0;
        var read, at' := ChRead(buf, 1, ChunkLimit, text, at);
        size, at := read, at';
      }
    }

    /** `operator*`: EOF when the chunk is used up, else the current byte as a signed `char`. */
    method Peek() returns (r: int)
      requires Valid()
      ensures r == (if pos >= size then EOF else AsInt(buf[pos]))
      ensures r == Head(rest)
    {
      r := if pos >= size then EOF else AsInt(buf[pos]);
    }

    /** `operator++`: step past the current byte, refilling the chunk when it is used up. */
    method Advance()
      requires Valid()
      modifies this, buf
      ensures Valid() && buf == old(buf)
      ensures rest == if old(rest) == [] then [] else old(rest)[1..]
    {
      if pos < size {
        assert buf[pos..size][1..] == buf[pos + 1..size];
      }
      pos := pos + 1;
      rest := if rest == [] then [] else rest[1..];
      AssureLookahead();
    }

    /** `skipWhitespace`: consumes tabs, carriage returns and spaces, and nothing else. */
    method SkipWhitespace()
      requires Valid()
      modifies this, buf
      ensures Valid() && buf == old(buf)
      ensures rest == old(rest)[BlankRun(old(rest))..]
      ensures rest == [] || !IsBlank(rest[0])
    {
      ghost var s := rest;
      ghost var k := 0;
      var v := Peek();
      var c := AsChar(v);
      while c == Tab || c == CarriageReturn || c == Space
        invariant Valid() && buf == old(buf)
        invariant k <= |s| && rest == s[k..]
        invariant BlankRun(s) == k + BlankRun(s[k..])
        invariant c == AsChar(Head(s[k..]))
        decreases |s| - k
      {
        BlankStep(s, k);
        Advance();
        k := k + 1;
        v := Peek();
        c := AsChar(v);
      }
    }

    /** `skipLine`: stops without consuming at EOF or NUL, otherwise consumes through the first newline. */
    method SkipLine()
      requires Valid()
      modifies this, buf
      ensures Valid() && buf == old(buf)
      ensures rest == old(rest)[LineSkip(old(rest))..]
    {
      ghost var s := rest;
      ghost var k := 0;
      while true
        invariant Valid() && buf == old(buf)
        invariant k <= |s| && rest == s[k..]
        invariant LineSkip(s) == k + LineSkip(s[k..])
        decreases |s| - k
      {
        var v := Peek();
        if v == EOF || v == 0 {
          return;
        }
        LineStep(s, k);
        if v == Newline as int {
          Advance();
          return;
        }
        Advance();
        k := k + 1;
      }
    }

    /** `skipEOL`: true at EOF or NUL, or after carriage returns and one newline; false, without
        consuming the offending byte, at any other byte. */
    method SkipEol() returns (ok: bool)
      requires Valid()
      modifies this, buf
      ensures Valid() && buf == old(buf)
      ensures var r := EolSkip(old(rest)); ok == r.0 && rest == old(rest)[r.1..]
    {
      ghost var s := rest;
      ghost var k := 0;
      while true
        invariant Valid() && buf == old(buf)
        invariant k <= |s| && rest == s[k..]
        invariant EolSkip(s) == (EolSkip(s[k..]).0, k + EolSkip(s[k..]).1)
        decreases |s| - k
      {
        var v := Peek();
        if v == EOF || v == 0 {
          return true;
        }
        EolStep(s, k);
        if v == Newline as int {
          Advance();
          return true;
        }
        if v != CarriageReturn as int {
          return false;
        }
        Advance();
        k := k + 1;
      }
    }

    /** The blanks and the optional sign that open `parseInt`; true when the sign is a minus. */
    method SkipSign() returns (neg: bool)
      requires Valid()
      modifies this, buf
      ensures Valid() && buf == old(buf)
      ensures neg == Negative(old(rest)) && rest == old(rest)[SignEnd(old(rest))..]
    {
      ghost var s := rest;
      neg := false;
      SkipWhitespace();
      ghost var b := BlankRun(s);
      var v := Peek();
      if v == Minus as int {
        DropOne(s, b);
        neg := true;
        Advance();
      } else if v == Plus as int {
        DropOne(s, b);
        Advance();
      }
    }

    /** The digit loop of `parseInt`: accumulates digits with the overflow test of `t`, counting in
        `n` the increments of `*len`; stops at the first byte that is no digit, or fails on overflow
        with the offending digit not consumed. */
    method ReadDigits(t: IntType) returns (ok: bool, val: int, n: nat)
      requires Valid()
      modifies this, buf
      ensures Valid() && buf == old(buf)
      ensures var r := DigitLoop(t, old(rest), 0, 0);
        ok == r.ok && (ok ==> val == r.value) && n == r.digits && rest == old(rest)[r.consumed..]
    {
      ghost var u := rest;
      var v := Peek();
      var c := AsChar(v);
      val, n := 0, 0;
      while Zero <= c <= Nine
        invariant Valid() && buf == old(buf)
        invariant n <= |u| && rest == u[n..]
        invariant c == AsChar(Head(u[n..]))
        invariant DigitLoop(t, u, 0, 0) == DigitLoop(t, u, n, val)
        decreases |u| - n
      {
        DigitStep(t, u, n, val);
        var step := Step(t, val, DigitValue(c));
        if step.None? {
          return false, val, n + 1;
        }
        val := step.value;
        Advance();
        n := n + 1;
        v := Peek();
        c := AsChar(v);
      }
      DigitStop(t, u, n, val);
      ok := true;
    }

    /** `parseInt<T>(ret, lineNum, len)`: `prior` is the caller's `ret` and `lenIn` its `*len`; on
        failure `ret` keeps the caller's value. */
    method ParseInt(t: IntType, prior: int, lenIn: int) returns (ok: bool, ret: int, len: int)
      requires Valid()
      modifies this, buf
      ensures Valid() && buf == old(buf)
      ensures var r := ParseIntOf(t, old(rest));
        && ok == r.ok
        && ret == (if ok then r.value else prior)
        && len == lenIn + r.digits
        && rest == old(rest)[r.consumed..]
    {
      ghost var s := rest;
      var neg := SkipSign();
      ghost var e := SignEnd(s);
      ghost var u := s[e..];
      ParseIntByLoop(t, s);
      var v := Peek();
      var c := AsChar(v);
      if c < Zero || c > Nine {
        return false, prior, lenIn;
      }
      var val, n;
      ok, val, n := ReadDigits(t);
      SliceOfSlice(s, e, DigitLoop(t, u, 0, 0).consumed);
      len := lenIn + n;
      ret := if !ok then prior else if neg then -val else val;
    }

    /** `parseDouble`: an unbounded integer head, then, when a '.' follows, an unbounded integer tail
        whose digit count gives the scale. `prior` is the caller's `ret`, kept on failure. */
    method ParseDouble(prior: real) returns (ok: bool, ret: real)
      requires Valid()
      modifies this, buf
      ensures Valid() && buf == old(buf)
      ensures var r := ParseDoubleOf(old(rest));
        && ok == r.ok
        && ret == (if ok then r.value else prior)
        && rest == old(rest)[r.consumed..]
    {
      ghost var s := rest;
      var rc, head, _ := ParseInt(Unbounded, 0, 0);
      if !rc {
        return false, prior;
      }
      ghost var h := ParseIntOf(Unbounded, s);
      var v := Peek();
      if v == Dot as int {
        ok, ret := ParseFraction(head, prior);
        ghost var tl := ParseIntOf(Unbounded, s[h.consumed..][1..]);
        SliceOfSlice(s, h.consumed, 1 + tl.consumed);
      } else {
        ok, ret := true, head as real;
      }
    }

    /** The part of `parseDouble` after the '.': the tail parsed as an unbounded integer, scaled
        by its digit count and added to `head`. */
    method ParseFraction(head: int, prior: real) returns (ok: bool, ret: real)
      requires Valid() && Head(rest) == Dot as int
      modifies this, buf
      ensures Valid() && buf == old(buf)
      ensures var tl := ParseIntOf(Unbounded, old(rest)[1..]);
        && |old(rest)| >= 1 + tl.consumed
        && ok == tl.ok
        && ret == (if ok then DecimalOf(head, tl.value, tl.digits) else prior)
        && rest == old(rest)[1 + tl.consumed..]
    {
      ghost var s := rest;
      DropOne(s, 0);
      Advance();
      var rc, tail, len := ParseInt(Unbounded, 0, 0);
      SliceOfSlice(s, 1, ParseIntOf(Unbounded, s[1..]).consumed);
      if !rc {
        return false, prior;
      }
      ok, ret := true, DecimalOf(head, tail, len);
    }

    /** `parseString`: skips blanks, then collects bytes up to a space, a newline or EOF, none of
        which is consumed. */
    method ParseString() returns (str: seq<byte>)
      requires Valid()
      modifies this, buf
      ensures Valid() && buf == old(buf)
      ensures var s := old(rest)[BlankRun(old(rest))..];
        str == s[..WordRun(s)] && rest == s[WordRun(s)..]
    {
      str := [];
      SkipWhitespace();
      ghost var s := rest;
      ghost var k := 0;
      var v := Peek();
      while v != Space as int && v != Newline as int && v != EOF
        invariant Valid() && buf == old(buf)
        invariant k <= |s| && rest == s[k..]
        invariant str == s[..k]
        invariant WordRun(s) == k + WordRun(s[k..])
        invariant v == Head(s[k..])
        decreases |s| - k
      {
        WordStep(s, k);
        str := str + [AsChar(v)];
        Advance();
        k := k + 1;
        v := Peek();
      }
    }
  }
}

/** The text `my_assert!` hands to `c_panic` when its condition is false: the line
    number's digits from the helper `itoa`, and the message assembled by bounded
    appends into the 256-byte static buffer MESSAGE. */
module AssertMessage {
  import opened Bits

  /** `MESSAGE.len()`. */
  const MESSAGE_SIZE: nat := 256
  /** The length of the array `itoa` returns. */
  const ITOA_SIZE: nat := 10

  const NUL: u8 := 0
  /** `b'0'`. */
  const ZERO_DIGIT: u8 := 48
  /** `b':'`. */
  const COLON: u8 := 58
  /** `b'\''`. */
  const QUOTE: u8 := 39

  /** `s.as_bytes()` for ASCII text (characters below U+0080), where UTF-8 gives
      one byte per character, as every character of `file!()` and `stringify!`
      output in this kernel is. */
  function Bytes(s: string): (b: seq<u8>)
    ensures |b| == |s|
    ensures forall i | 0 <= i < |s| :: b[i] == s[i] as int % 256
  {
    seq(|s|, i requires 0 <= i < |s| => s[i] as int % 256)
  }

  function Zeros(k: nat): (z: seq<u8>)
    ensures |z| == k && forall i | 0 <= i < k :: z[i] == NUL
  {
    seq(k, _ => NUL)
  }

  // ----- decimal digits -----

  function Pow10(k: nat): (p: nat)
    ensures p >= 1 && (k >= 1 ==> p >= 10)
  {
    if k == 0 then 1 else 10 * Pow10(k - 1)
  }

  predicate IsDigits(s: seq<u8>)
  {
    forall i | 0 <= i < |s| :: ZERO_DIGIT <= s[i] <= ZERO_DIGIT + 9
  }

  /** The decimal digits of n, most significant first; "0" for zero. */
  function Decimal(n: nat): (s: seq<u8>)
    ensures 1 <= |s| && IsDigits(s)
    ensures n >= 10 ==> s[0] != ZERO_DIGIT
    decreases n
  {
    if n < 10 then [ZERO_DIGIT + n] else Decimal(n / 10) + [ZERO_DIGIT + n % 10]
  }

  /** The number a string of decimal digits denotes. */
  function Value(s: seq<u8>): nat
    requires IsDigits(s)
    decreases |s|
  {
    if s == [] then 0 else 10 * Value(s[..|s| - 1]) + (s[|s| - 1] - ZERO_DIGIT)
  }

  /** Reading the digits back gives the number. */
  lemma {:induction false} DecimalValue(n: nat)
    ensures Value(Decimal(n)) == n
    decreases n
  {
    if n >= 10 {
      DecimalValue(n / 10);
      var s := Decimal(n);
      assert s[..|s| - 1] == Decimal(n / 10);
    }
  }

  /** n has at most k digits exactly when it is below 10^k. */
  lemma {:induction false} DecimalLength(n: nat, k: nat)
    requires 1 <= k
    ensures |Decimal(n)| <= k <==> n < Pow10(k)
    decreases n
  {
    if n >= 10 && k > 1 {
      DecimalLength(n / 10, k - 1);
      assert n / 10 < Pow10(k - 1) <==> n < 10 * Pow10(k - 1);
    }
  }

  lemma U32Below(n: u32)
    ensures n < Pow10(ITOA_SIZE)
  {
    assert Pow10(ITOA_SIZE) == 10000000000;
  }

  /** A u32 has at most ten digits, so they fit the buffer of `itoa`. */
  lemma U32Digits(n: u32)
    ensures |Decimal(n)| <= ITOA_SIZE
  {
    U32Below(n);
    DecimalLength(n, ITOA_SIZE);
  }

  // ----- itoa -----

  /** The buffer of `itoa` when its digit loop is done: the digits of n at its
      end, NUL before them. */
  function Filled(n: u32): (b: seq<u8>)
    ensures |b| == ITOA_SIZE
  {
    U32Digits(n);
    Zeros(ITOA_SIZE - |Decimal(n)|) + Decimal(n)
  }

  /** `start`, which is i when the digit loop is done: 9 for zero, the slot before
      the first digit, or 0 when ten digits fill the buffer and the loop breaks at
      i == 0. */
  function FillStart(n: u32): (i: nat)
    ensures i <= 9
  {
    U32Digits(n);
    if n == 0 then 9 else if |Decimal(n)| == ITOA_SIZE then 0 else 9 - |Decimal(n)|
  }

  /** `rotate_left(k)` on a slice: the element at index k comes first. */
  function RotateLeft(s: seq<u8>, k: nat): (r: seq<u8>)
    requires k <= |s|
    ensures |r| == |s|
    ensures forall i | 0 <= i < |s| - k :: r[i] == s[i + k]
    ensures forall i | |s| - k <= i < |s| :: r[i] == s[i - (|s| - k)]
  {
    s[k..] + s[..k]
  }

  /** What `itoa` returns as written: the filled buffer rotated left by
      `9 - start`. */
  function AsWrittenBytes(n: u32): (b: seq<u8>)
    ensures |b| == ITOA_SIZE
  {
    RotateLeft(Filled(n), 9 - FillStart(n))
  }

  /** What `itoa` is meant to return ("move the digits to the start of the
      buffer"): the digits of n, then NUL. */
  function ItoaBytes(n: u32): (b: seq<u8>)
    ensures |b| == ITOA_SIZE
  {
    U32Digits(n);
    Decimal(n) + Zeros(ITOA_SIZE - |Decimal(n)|)
  }

  /** The digits part of `itoa(n)`, on the local array `buf` (a value): zero
      writes `b'0'` at index 9, and any other n goes to WriteDigits. Returns the
      buffer and `start`. */
  method ItoaFill(n: u32) returns (buf: seq<u8>, start: nat)
    ensures buf == Filled(n) && start == FillStart(n)
  {
    buf := Zeros(ITOA_SIZE);
    var i: nat := 9;
    if n == 0 {
      buf := buf[i := ZERO_DIGIT];
      assert buf[9..] == Decimal(0);
      assert Written(0, buf, 9, 0);
      FillDone(buf, 0, 9);
    } else {
      ghost var first;
      buf, i, first := WriteDigits(buf, n);
      FillDone(buf, n, first);
    }
    start := i;
  }

  /** The digit loop of `itoa(n)` for n > 0 on `buf`, all NUL to begin with: the
      digits go least significant first from index 9 downward, and the loop
      breaks once it has written index 0. Returns the buffer, i, which is
      `start`, and the index of the first digit. */
  method WriteDigits(zeros: seq<u8>, n: u32) returns (buf: seq<u8>, i: nat, ghost first: nat)
    requires zeros == Zeros(ITOA_SIZE) && n > 0
    ensures Written(n, buf, first, 0)
    ensures first == i + 1 || first == i == 0
  {
    U32Digits(n);
    buf := zeros;
    i := 9;
    var m: nat := n;
    first := 10;
    while m > 0
      invariant i <= 9 && first == i + 1 && Written(n, buf, first, m)
      decreases m
    {
      DigitRound(n, buf, i, m);
      buf := buf[i := ZERO_DIGIT + m % 10];
      m := m / 10;
      first := i;
      if i == 0 {
        break;
      }
      i := i - 1;
    }
  }

  /** The state of the digit loop: `buf` is NUL before `first`, and the digits of
      n are those of m, still to be written, then `buf` from `first` on. */
  ghost predicate Written(n: nat, buf: seq<u8>, first: nat, m: nat)
  {
    && |buf| == ITOA_SIZE && first <= ITOA_SIZE
    && (forall j | 0 <= j < first :: buf[j] == NUL)
    && Decimal(n) == Lead(m) + buf[first..]
  }

  /** One round of the digit loop: writing the last digit of m at i leaves the
      digits of m / 10 to write, and none once index 0 is written. */
  lemma DigitRound(n: nat, buf: seq<u8>, i: nat, m: nat)
    requires i <= 9 && 0 < m && |Decimal(n)| <= ITOA_SIZE && Written(n, buf, i + 1, m)
    ensures Written(n, buf[i := ZERO_DIGIT + m % 10], i, m / 10)
    ensures i == 0 ==> m / 10 == 0
  {
    var d: u8 := ZERO_DIGIT + m % 10;
    var b := buf[i := d];
    assert b[i..] == [d] + buf[i + 1..];
    LeadStep(m);
    assert Lead(m) + buf[i + 1..] == Lead(m / 10) + ([d] + buf[i + 1..]);
  }

  /** The digits of m still to be written: none once m is 0. */
  function Lead(m: nat): (s: seq<u8>)
    ensures m > 0 ==> s == Decimal(m)
  {
    if m == 0 then [] else Decimal(m)
  }

  lemma LeadStep(m: nat)
    requires m > 0
    ensures Lead(m) == Lead(m / 10) + [ZERO_DIGIT + m % 10]
  {
  }

  /** When the loop is done, the buffer is the filled buffer, and `first` the
      index of the first digit. */
  lemma FillDone(b: seq<u8>, n: u32, first: nat)
    requires Written(n, b, first, 0)
    ensures b == Filled(n) && first == ITOA_SIZE - |Decimal(n)|
  {
    assert b == b[..first] + b[first..];
    assert b[..first] == Zeros(first);
  }

  /** `itoa` as written: the filled buffer rotated left by `9 - start`. */
  method ItoaAsWritten(n: u32) returns (r: seq<u8>)
    ensures r == AsWrittenBytes(n)
  {
    var buf, start := ItoaFill(n);
    r := RotateLeft(buf, 9 - start);
  }

  /** `itoa` with the rotation its comment describes: left by the index of the
      first digit, which is `start` when the digits fill the buffer or n is zero,
      and the slot after `start` otherwise. */
  method Itoa(n: u32) returns (r: seq<u8>)
    ensures r == ItoaBytes(n)
  {
    U32Digits(n);
    var buf, start := ItoaFill(n);
    var first := if buf[start] == NUL then start + 1 else start;
    assert first == ITOA_SIZE - |Decimal(n)|;
    r := RotateLeft(buf, first);
    assert r == buf[first..] + buf[..first];
  }

  /** `itoa(0)` writes only `b'0'`, at index 9, and as written returns the buffer
      unrotated. */
  lemma ItoaZero()
    ensures Filled(0) == Zeros(9) + [ZERO_DIGIT]
    ensures AsWrittenBytes(0) == Filled(0)
  {
    assert Decimal(0) == [ZERO_DIGIT];
  }

  /** As written, the rotation amount `9 - start` is the digit count for a number
      of one to nine digits, 0 for zero and 9 for ten digits. */
  lemma AsWrittenShift(n: u32)
    ensures 9 - FillStart(n) == if n == 0 then 0 else if |Decimal(n)| == ITOA_SIZE then 9 else |Decimal(n)|
  {
  }

  /** As written, a number of fewer than five digits comes back with a NUL first,
      so nothing of it shows in a C string. */
  lemma AsWrittenLeadingNul(n: u32)
    requires |Decimal(n)| < 5
    ensures AsWrittenBytes(n)[0] == NUL
  {
    var d := |Decimal(n)|;
    if n != 0 {
      assert AsWrittenBytes(n)[0] == Filled(n)[d];
    }
  }

  /** As written, `itoa(45)` is six NULs, "45" and two NULs. */
  lemma AsWritten45()
    ensures AsWrittenBytes(45) == Zeros(6) + [ZERO_DIGIT + 4, ZERO_DIGIT + 5] + Zeros(2)
  {
    assert Decimal(45) == [ZERO_DIGIT + 4, ZERO_DIGIT + 5];
    assert Filled(45) == Zeros(8) + [ZERO_DIGIT + 4, ZERO_DIGIT + 5];
  }

  /** As written, a five-digit number comes back as meant. */
  lemma AsWrittenFiveDigits(n: u32)
    requires |Decimal(n)| == 5
    ensures AsWrittenBytes(n) == ItoaBytes(n)
  {
    assert AsWrittenBytes(n) == Filled(n)[5..] + Filled(n)[..5];
  }

  /** Five digits is not the only case: ten equal digits are unchanged by the
      rotation by 9 that as written applies to ten digits. */
  lemma AsWrittenRepdigit()
    ensures AsWrittenBytes(1111111111) == ItoaBytes(1111111111)
  {
  }

  // ----- reading the buffer as a C string -----

  /** The bytes before the first NUL: what `c_panic` reads from a character
      pointer. */
  function CText(s: seq<u8>): (t: seq<u8>)
    ensures NUL !in t && t <= s
    ensures |t| < |s| ==> s[|t|] == NUL
    decreases |s|
  {
    if s == [] || s[0] == NUL then [] else [s[0]] + CText(s[1..])
  }

  lemma {:induction false} CTextAppend(a: seq<u8>, b: seq<u8>)
    requires NUL !in a
    ensures CText(a + b) == a + CText(b)
    decreases |a|
  {
    if a != [] {
      assert a[0] in a && a == [a[0]] + a[1..];
      assert (a + b)[0] == a[0] && (a + b)[1..] == a[1..] + b;
      CTextAppend(a[1..], b);
      assert CText(a + b) == [a[0]] + CText(a[1..] + b);
    } else {
      assert a + b == b;
    }
  }

  /** The meant `itoa` reads back, as a C string, as the digits of n. */
  lemma ItoaReadsBack(n: u32)
    ensures CText(ItoaBytes(n)) == Decimal(n)
    ensures Value(CText(ItoaBytes(n))) == n
  {
    U32Digits(n);
    var z := Zeros(ITOA_SIZE - |Decimal(n)|);
    CTextAppend(Decimal(n), z);
    if z != [] {
      assert z[0] == NUL;
    }
    assert CText(z) == [];
    DecimalValue(n);
  }

  // ----- the message -----

  const PREFIX: seq<u8> := Bytes("Assertion failed at ")
  const CONDITION_OPEN: seq<u8> := Bytes(" condition '")

  /** The message before it is cut to the buffer: "Assertion failed at ", the
      file, ':', the line's ten `itoa` bytes, ':', " condition '", the condition,
      '\'' and NUL. */
  function Message(file: seq<u8>, digits: seq<u8>, condition: seq<u8>): seq<u8>
  {
    PREFIX + file + [COLON] + digits + [COLON] + CONDITION_OPEN + condition + [QUOTE] + [NUL]
  }

  /** The first MESSAGE_SIZE bytes of s, or all of s when it is shorter. */
  function Fit(s: seq<u8>): (f: seq<u8>)
    ensures f <= s && |f| <= MESSAGE_SIZE && (f == s || |f| == MESSAGE_SIZE)
  {
    if |s| <= MESSAGE_SIZE then s else s[..MESSAGE_SIZE]
  }

  /** Appending to what fit appends to the whole until the buffer is full. */
  lemma FitAppend(done: seq<u8>, bytes: seq<u8>, k: nat)
    requires k <= |bytes| && |Fit(done)| + k <= MESSAGE_SIZE
    requires k == |bytes| || |Fit(done)| + k == MESSAGE_SIZE
    ensures Fit(done) + bytes[..k] == Fit(done + bytes)
  {
    if |done| > MESSAGE_SIZE {
      assert k == 0;
    }
  }

  /** With a file name short enough that the line fits, the meant `itoa` shows the
      line number, and the C string ends right after it: the ten bytes copied
      from `itoa` carry the NUL that pads the digits. */
  lemma LineShown(file: string, line: u32, condition: string)
    requires NUL !in Bytes(file) && |file| <= 200 && line < 1000000000
    ensures CText(Fit(Message(Bytes(file), ItoaBytes(line), Bytes(condition)))) ==
      PREFIX + Bytes(file) + [COLON] + Decimal(line)
  {
    DecimalLength(line, 9);
    U32Digits(line);
    var d, z := Decimal(line), Zeros(ITOA_SIZE - |Decimal(line)|);
    MessageSplit(Bytes(file), d, z, Bytes(condition));
    PrefixNoNul();
    assert NUL !in d;
    ShowsUpTo(PREFIX + Bytes(file) + [COLON] + d, z + [COLON] + CONDITION_OPEN + Bytes(condition) + [QUOTE] + [NUL]);
  }

  /** As written, a line number of fewer than five digits does not show: the
      C string ends at the ':' after the file name. */
  lemma LineHidden(file: string, line: u32, condition: string)
    requires NUL !in Bytes(file) && |file| <= 200 && |Decimal(line)| < 5
    ensures CText(Fit(Message(Bytes(file), AsWrittenBytes(line), Bytes(condition)))) ==
      PREFIX + Bytes(file) + [COLON]
  {
    var b := AsWrittenBytes(line);
    AsWrittenLeadingNul(line);
    MessageHead(Bytes(file), b, Bytes(condition));
    PrefixNoNul();
    ShowsUpTo(PREFIX + Bytes(file) + [COLON], b + [COLON] + CONDITION_OPEN + Bytes(condition) + [QUOTE] + [NUL]);
  }

  lemma PrefixNoNul()
    ensures NUL !in PREFIX && |PREFIX| == 20
  {
  }

  /** The message up to the line's bytes, and from them on. */
  lemma MessageHead(file: seq<u8>, digits: seq<u8>, condition: seq<u8>)
    ensures Message(file, digits, condition) ==
      (PREFIX + file + [COLON]) + (digits + [COLON] + CONDITION_OPEN + condition + [QUOTE] + [NUL])
  {
  }

  /** The message cut inside the line's bytes, between pre and post. */
  lemma MessageSplit(file: seq<u8>, pre: seq<u8>, post: seq<u8>, condition: seq<u8>)
    ensures Message(file, pre + post, condition) ==
      (PREFIX + file + [COLON] + pre) + (post + [COLON] + CONDITION_OPEN + condition + [QUOTE] + [NUL])
  {
  }

  /** A text without NUL, then a NUL, both within the buffer: the C string that
      fits is the text. */
  lemma ShowsUpTo(x: seq<u8>, y: seq<u8>)
    requires NUL !in x && |x| < MESSAGE_SIZE && y != [] && y[0] == NUL
    ensures CText(Fit(x + y)) == x
  {
    var f := Fit(x + y);
    assert f == x + f[|x|..];
    CTextAppend(x, f[|x|..]);
  }

  /** The static MESSAGE buffer of `my_assert!`. */
  class MessageBuffer {
    /** MESSAGE; it keeps its bytes from one failed assertion to the next. */
    const message: array<u8>

    ghost predicate Valid()
      reads this
    {
      message.Length == MESSAGE_SIZE
    }

    /** `static mut MESSAGE: [u8; 256] = [0; 256]`. */
    constructor()
      ensures Valid() && message[..] == Zeros(MESSAGE_SIZE)
    {
      message := new u8[MESSAGE_SIZE](_ => NUL);
    }

    /** MESSAGE after appending `done` from the start: its first `pos` bytes are
        `done` cut to the buffer, and from pos on it still holds `orig`, what it
        held before the message. */
    ghost predicate Holds(pos: nat, done: seq<u8>, orig: seq<u8>)
      reads this, message
    {
      && Valid() && pos == |Fit(done)| && message[..pos] == Fit(done)
      && forall i | pos <= i < |orig| && i < MESSAGE_SIZE :: message[i] == orig[i]
    }

    /** One bounded append at `pos`: each byte goes to MESSAGE[pos] while
        pos < 256. */
    method Append(pos: nat, bytes: seq<u8>, ghost done: seq<u8>, ghost orig: seq<u8>) returns (next: nat)
      requires Holds(pos, done, orig)
      modifies message
      ensures Holds(next, done + bytes, orig)
    {
      next := pos;
      var k := 0;
      while k < |bytes|
        invariant k <= |bytes| && next == pos + k <= MESSAGE_SIZE
        invariant message[..next] == Fit(done) + bytes[..k]
        invariant forall i | next <= i < |orig| && i < MESSAGE_SIZE :: message[i] == orig[i]
      {
        if next >= MESSAGE_SIZE {
          break;
        }
        message[next] := bytes[k];
        assert message[..next + 1] == message[..next] + [bytes[k]];
        assert bytes[..k + 1] == bytes[..k] + [bytes[k]];
        next := next + 1;
        k := k + 1;
      }
      FitAppend(done, bytes, k);
    }

    /** The appends of `my_assert!`, with `digits` as the bytes copied for the
        line: the message built in MESSAGE, cut to 256 bytes, and its length
        `pos`; the bytes past it keep what the last message left there. */
    method WriteMessage(f: seq<u8>, digits: seq<u8>, c: seq<u8>) returns (len: nat)
      requires Valid()
      modifies message
      ensures len == |Fit(Message(f, digits, c))|
      ensures message[..len] == Fit(Message(f, digits, c))
      ensures forall i | len <= i < MESSAGE_SIZE :: message[i] == old(message[i])
    {
      ghost var orig := message[..];
      var pos := 0;
      assert Holds(pos, [], orig);
      pos := Append(pos, PREFIX, [], orig);
      ghost var done := PREFIX;
      pos := Append(pos, f, done, orig);
      done := done + f;
      pos := Append(pos, [COLON], done, orig);
      done := done + [COLON];
      pos := Append(pos, digits, done, orig);
      done := done + digits;
      pos := Append(pos, [COLON], done, orig);
      done := done + [COLON];
      pos := Append(pos, CONDITION_OPEN, done, orig);
      done := done + CONDITION_OPEN;
      pos := Append(pos, c, done, orig);
      done := done + c;
      pos := Append(pos, [QUOTE], done, orig);
      done := done + [QUOTE];
      pos := Append(pos, [NUL], done, orig);
      done := done + [NUL];
      assert done == Message(f, digits, c);
      assert Holds(pos, Message(f, digits, c), orig);
      len := pos;
    }

    /** The body of `my_assert!` once its condition is false, as written: all ten
        bytes of `itoa` as written go in for the line. */
    method MyAssertMessage(file: string, line: u32, condition: string) returns (len: nat)
      requires Valid()
      modifies message
      ensures len == |Fit(Message(Bytes(file), AsWrittenBytes(line), Bytes(condition)))|
      ensures message[..len] == Fit(Message(Bytes(file), AsWrittenBytes(line), Bytes(condition)))
      ensures forall i | len <= i < MESSAGE_SIZE :: message[i] == old(message[i])
    {
      var lineStr := ItoaAsWritten(line);
      len := WriteMessage(Bytes(file), lineStr, Bytes(condition));
    }

    /** `my_assert!` as its comments mean it: the corrected `itoa`, and only its
        digits copied, so that MESSAGE reads "Assertion failed at FILE:LINE:
        condition 'CONDITION'" (MessageShown). */
    method MyAssertMessageIntended(file: string, line: u32, condition: string) returns (len: nat)
      requires Valid()
      modifies message
      ensures len == |Fit(Message(Bytes(file), Decimal(line), Bytes(condition)))|
      ensures message[..len] == Fit(Message(Bytes(file), Decimal(line), Bytes(condition)))
      ensures forall i | len <= i < MESSAGE_SIZE :: message[i] == old(message[i])
    {
      var lineStr := Itoa(line);
      ItoaReadsBack(line);
      len := WriteMessage(Bytes(file), CText(lineStr), Bytes(condition));
    }
  }

  /** With the digits alone in place of the ten `itoa` bytes, and a file name and
      condition without NUL that fit, `c_panic` reads the whole message but its
      final NUL. */
  lemma MessageShown(file: string, line: u32, condition: string)
    requires NUL !in Bytes(file) && NUL !in Bytes(condition) && |file| + |condition| <= MESSAGE_SIZE - 46
    ensures CText(Fit(Message(Bytes(file), Decimal(line), Bytes(condition)))) ==
      PREFIX + Bytes(file) + [COLON] + Decimal(line) + [COLON] + CONDITION_OPEN + Bytes(condition) + [QUOTE]
  {
    var x := PREFIX + Bytes(file) + [COLON] + Decimal(line) + [COLON] + CONDITION_OPEN + Bytes(condition) + [QUOTE];
    PrefixNoNul();
    U32Digits(line);
    assert NUL !in CONDITION_OPEN && |CONDITION_OPEN| == 12;
    assert NUL !in Decimal(line);
    ShowsUpTo(x, [NUL]);
  }

  /** The message never runs past the buffer, and it is all there when it fits. */
  lemma MessageBounds(file: string, line: u32, condition: string)
    ensures |Fit(Message(Bytes(file), AsWrittenBytes(line), Bytes(condition)))| <= MESSAGE_SIZE
    ensures |Message(Bytes(file), AsWrittenBytes(line), Bytes(condition))| == 46 + |file| + |condition|
    ensures |file| + |condition| <= MESSAGE_SIZE - 46 <==>
      Fit(Message(Bytes(file), AsWrittenBytes(line), Bytes(condition))) == Message(Bytes(file), AsWrittenBytes(line), Bytes(condition))
  {
  }
}

/** Bencode values, and the integer and byte-string tokens both decoders read. */
module BencodeTokens {
  import opened Common

  const BEN_END: byte := 101
  const DICT_START: byte := 100
  const LIST_START: byte := 108
  const INT_START: byte := 105
  const BYTE_LEN_LOW: byte := 48
  const BYTE_LEN_HIGH: byte := 57
  const BYTE_LEN_END: byte := 58
  const MINUS: byte := 45
  const PLUS: byte := 43

  const I64_MIN: int := -0x8000_0000_0000_0000
  const I64_MAX: int := 0x7fff_ffff_ffff_ffff

  predicate IsDigit(c: byte) {
    BYTE_LEN_LOW <= c <= BYTE_LEN_HIGH
  }

  predicate AllDigits(s: Bytes) {
    forall i :: 0 <= i < |s| ==> IsDigit(s[i])
  }

  // ---------------------------------------------------------------- decimal numerals

  /** The number a string of decimal digits denotes. */
  function DigitsValue(ds: Bytes): nat
    requires AllDigits(ds)
  {
    if |ds| == 0 then 0 else DigitsValue(ds[..|ds| - 1]) * 10 + (ds[|ds| - 1] - BYTE_LEN_LOW)
  }

  /** The shortest decimal numeral of n, as `to_string` prints it. */
  function Numeral(n: nat): (s: Bytes)
    ensures |s| > 0 && AllDigits(s)
    ensures s[0] == BYTE_LEN_LOW ==> n == 0
    ensures n < 10 ==> |s| == 1
  {
    if n < 10 then [BYTE_LEN_LOW + n] else Numeral(n / 10) + [BYTE_LEN_LOW + n % 10]
  }

  lemma {:induction false} NumeralValue(n: nat)
    ensures DigitsValue(Numeral(n)) == n
  {
    if n >= 10 {
      NumeralValue(n / 10);
      assert Numeral(n)[..|Numeral(n)| - 1] == Numeral(n / 10);
    }
  }

  /** A digit string without superfluous leading zeros is the numeral of its value. */
  lemma {:induction false} NumeralCanonical(ds: Bytes)
    requires AllDigits(ds) && |ds| > 0
    requires |ds| > 1 ==> ds[0] != BYTE_LEN_LOW
    ensures Numeral(DigitsValue(ds)) == ds
    ensures ds[0] != BYTE_LEN_LOW ==> DigitsValue(ds) > 0
  {
    var init := ds[..|ds| - 1];
    assert ds == init + [ds[|ds| - 1]];
    if |ds| == 1 {
      assert init == [];
    } else {
      NumeralCanonical(init);
    }
  }

  /** `i64::to_string`. */
  function IntText(n: int): (s: Bytes)
  {
    if n < 0 then [MINUS] + Numeral(-n) else Numeral(n)
  }

  /** `i64::from_str_radix(text, 10)`: an optional sign of either kind, at least one digit,
      nothing else, and a value that fits. */
  function ParseI64(text: Bytes): (r: Option<int>)
  {
    var signed := |text| > 0 && (text[0] == MINUS || text[0] == PLUS);
    var digits := if signed then text[1..] else text;
    if |digits| == 0 || !AllDigits(digits) then None
    else
      var magnitude: int := DigitsValue(digits);
      var n := if text[0] == MINUS then -magnitude else magnitude;
      if I64_MIN <= n <= I64_MAX then Some(n) else None
  }

  // ---------------------------------------------------------------- tokens

  /** First position at or after pos that holds the delimiter. */
  function FindByte(b: Bytes, pos: nat, delim: byte): (r: Option<nat>)
    requires pos <= |b|
    ensures r.Some? ==> pos <= r.value < |b| && b[r.value] == delim
    ensures r.Some? ==> forall i :: pos <= i < r.value ==> b[i] != delim
    ensures r.None? ==> forall i :: pos <= i < |b| ==> b[i] != delim
    decreases |b| - pos
  {
    if pos == |b| then None
    else if b[pos] == delim then Some(pos)
    else FindByte(b, pos + 1, delim)
  }

  /** The text checks both decoders make before converting a number: no negative zero, no padding. */
  function ParseToken(text: Bytes): (r: Option<int>)
  {
    if |text| > 1 && text[0] == MINUS && text[1] == BYTE_LEN_LOW then None
    else if |text| > 1 && text[0] == BYTE_LEN_LOW then None
    else ParseI64(text)
  }

  /** `decode_int`: the number that ends at the next delimiter, and the position after it. */
  function DecodeInt(b: Bytes, pos: nat, delim: byte): (r: Option<(int, nat)>)
    requires pos <= |b|
    ensures r.Some? ==> pos + 1 < r.value.1 <= |b| && I64_MIN <= r.value.0 <= I64_MAX
  {
    match FindByte(b, pos, delim)
    case None => None
    case Some(end) =>
      match ParseToken(b[pos..end])
      case None => None
      case Some(n) => Some((n, end + 1))
  }

  /** `decode_bytes`: a length, a colon and that many bytes. */
  function DecodeBytes(b: Bytes, pos: nat): (r: Option<(Bytes, nat)>)
    requires pos <= |b|
    ensures r.Some? ==> pos + 1 < r.value.1 <= |b| && |r.value.0| <= I64_MAX
  {
    match DecodeInt(b, pos, BYTE_LEN_END)
    case None => None
    case Some((n, start)) =>
      if n < 0 || n > |b| - start then None
      else Some((b[start..start + n], start + n))
  }

  /** `encode_bytes`. */
  function EncodeBytes(s: Bytes): (r: Bytes)
    ensures |r| > |s| && IsDigit(r[0])
  {
    Numeral(|s|) + [BYTE_LEN_END] + s
  }

  /** b from pos reads exactly like the window [from, to) of a. */
  predicate SameWindow(a: Bytes, from: nat, to: nat, b: Bytes, pos: nat) {
    && from <= to <= |a|
    && pos + (to - from) <= |b|
    && forall i :: from <= i < to ==> a[i] == b[pos + (i - from)]
  }

  lemma WindowSlice(a: Bytes, from: nat, to: nat, b: Bytes, pos: nat)
    requires SameWindow(a, from, to, b, pos)
    ensures a[from..to] == b[pos..pos + (to - from)]
  {}

  lemma SubWindow(a: Bytes, from: nat, to: nat, b: Bytes, pos: nat, f: nat, t: nat)
    requires SameWindow(a, from, to, b, pos) && from <= f <= t <= to
    ensures SameWindow(a, f, t, b, pos + (f - from))
    ensures to <= |a| && pos + (to - from) <= |b|
    ensures f < to ==> a[f] == b[pos + (f - from)]
    ensures a[f..t] == b[pos + (f - from)..pos + (t - from)]
  {}

  lemma SliceWindow(a: Bytes, from: nat, to: nat, b: Bytes, pos: nat)
    requires from <= to <= |a| && pos + (to - from) <= |b|
    requires a[from..to] == b[pos..pos + (to - from)]
    ensures SameWindow(a, from, to, b, pos)
  {}

  lemma FindByteIs(b: Bytes, pos: nat, delim: byte, end: nat)
    requires pos <= end < |b| && b[end] == delim
    requires forall i :: pos <= i < end ==> b[i] != delim
    ensures FindByte(b, pos, delim) == Some(end)
  {}

  /** A number token is read the same wherever the same bytes appear. */
  lemma DecodeIntFrame(a: Bytes, from: nat, delim: byte, b: Bytes, pos: nat)
    requires from <= |a| && DecodeInt(a, from, delim).Some?
    requires SameWindow(a, from, DecodeInt(a, from, delim).value.1, b, pos)
    ensures DecodeInt(b, pos, delim)
         == Some((DecodeInt(a, from, delim).value.0, pos + (DecodeInt(a, from, delim).value.1 - from)))
  {
    hide FindByte, ParseToken;
    var end := FindByte(a, from, delim).value;
    forall i | pos <= i < pos + (end - from)
      ensures b[i] != delim
    {
      assert a[from + (i - pos)] == b[i];
    }
    assert a[end] == b[pos + (end - from)];
    FindByteIs(b, pos, delim, pos + (end - from));
    WindowSlice(a, from, end, b, pos);
  }

  /** A byte string is read the same wherever the same bytes appear. */
  lemma DecodeBytesFrame(a: Bytes, from: nat, b: Bytes, pos: nat)
    requires from <= |a| && DecodeBytes(a, from).Some?
    requires SameWindow(a, from, DecodeBytes(a, from).value.1, b, pos)
    ensures DecodeBytes(b, pos)
         == Some((DecodeBytes(a, from).value.0, pos + (DecodeBytes(a, from).value.1 - from)))
  {
    hide FindByte, ParseToken, SameWindow;
    var start := DecodeInt(a, from, BYTE_LEN_END).value.1;
    var next := DecodeBytes(a, from).value.1;
    SubWindow(a, from, next, b, pos, from, start);
    DecodeIntFrame(a, from, BYTE_LEN_END, b, pos);
    SubWindow(a, from, next, b, pos, start, next);
  }

  // ---------------------------------------------------------------- printing and reading back

  lemma IntTextParses(n: int)
    requires I64_MIN <= n <= I64_MAX
    ensures ParseToken(IntText(n)) == Some(n)
    ensures forall i :: 0 <= i < |IntText(n)| ==> IsDigit(IntText(n)[i]) || IntText(n)[i] == MINUS
    ensures IntText(n)[0] != PLUS
  {
    hide Numeral, DigitsValue;
    if n < 0 {
      NumeralValue(-n);
      assert IntText(n)[1..] == Numeral(-n);
    } else {
      NumeralValue(n);
      assert IntText(n) == Numeral(n);
    }
  }

  /** The only texts a number may have are its numeral and numerals written with a plus sign. */
  lemma TokenCanonical(text: Bytes)
    requires ParseToken(text).Some? && text[0] != PLUS
    ensures IntText(ParseToken(text).value) == text
  {
    if text[0] == MINUS {
      NumeralCanonical(text[1..]);
      assert text == [MINUS] + text[1..];
    } else {
      NumeralCanonical(text);
    }
  }

  /** The text is a plus sign and digits that denote the number, padded or not. */
  predicate PlusText(text: Bytes, n: int) {
    |text| > 1 && text[0] == PLUS && AllDigits(text[1..]) && DigitsValue(text[1..]) == n
  }

  /** A text is accepted as a number if and only if it is the numeral of a 64-bit integer, or a plus sign and
      digits that denote one. */
  lemma TokenExactly(text: Bytes, n: int)
    ensures ParseToken(text) == Some(n) <==> I64_MIN <= n <= I64_MAX && (text == IntText(n) || PlusText(text, n))
  {
    if ParseToken(text) == Some(n) && text[0] != PLUS {
      TokenCanonical(text);
    }
    if I64_MIN <= n <= I64_MAX && text == IntText(n) {
      IntTextParses(n);
    }
  }

  /** Reading an encoded integer gives it back. */
  lemma EncodedIntDecodes(n: int, b: Bytes, pos: nat, delim: byte)
    requires I64_MIN <= n <= I64_MAX
    requires !IsDigit(delim) && delim != MINUS
    requires SameWindow(IntText(n) + [delim], 0, |IntText(n)| + 1, b, pos)
    ensures DecodeInt(b, pos, delim) == Some((n, pos + |IntText(n)| + 1))
  {
    hide FindByte, ParseToken, IntText, SameWindow;
    IntTextParses(n);
    var a := IntText(n) + [delim];
    FindByteIs(a, 0, delim, |IntText(n)|);
    assert a[0..|IntText(n)|] == IntText(n);
    assert DecodeInt(a, 0, delim) == Some((n, |IntText(n)| + 1));
    hide DecodeInt;
    DecodeIntFrame(a, 0, delim, b, pos);
  }

  /** Reading an encoded byte string gives it back. */
  lemma EncodedBytesDecode(s: Bytes, b: Bytes, pos: nat)
    requires |s| <= I64_MAX
    requires SameWindow(EncodeBytes(s), 0, |EncodeBytes(s)|, b, pos)
    ensures DecodeBytes(b, pos) == Some((s, pos + |EncodeBytes(s)|))
  {
    EncodedAlone(s);
    hide EncodeBytes, DecodeBytes, SameWindow;
    DecodeBytesFrame(EncodeBytes(s), 0, b, pos);
  }

  lemma EncodedAlone(s: Bytes)
    requires |s| <= I64_MAX
    ensures DecodeBytes(EncodeBytes(s), 0) == Some((s, |EncodeBytes(s)|))
  {
    hide Numeral, DecodeInt, SameWindow;
    var (a, digits) := (EncodeBytes(s), IntText(|s|));
    assert a == digits + [BYTE_LEN_END] + s;
    hide IntText, EncodeBytes;
    var k := |digits|;
    var token := digits + [BYTE_LEN_END];
    assert token[0..k + 1] == token == a[0..k + 1];
    SliceWindow(token, 0, k + 1, a, 0);
    EncodedIntDecodes(|s|, a, 0, BYTE_LEN_END);
    assert a[k + 1..k + 1 + |s|] == s;
  }

  /** A byte string whose length is not written with a plus sign is the encoding of its content. */
  lemma BytesCanonical(b: Bytes, pos: nat)
    requires pos < |b| && DecodeBytes(b, pos).Some? && b[pos] != PLUS
    ensures EncodeBytes(DecodeBytes(b, pos).value.0) == b[pos..DecodeBytes(b, pos).value.1]
  {
    hide DecodeInt, Numeral;
    IntCanonical(b, pos, BYTE_LEN_END);
    var (n, start) := DecodeInt(b, pos, BYTE_LEN_END).value;
    var (s, next) := DecodeBytes(b, pos).value;
    assert n == |s| && s == b[start..next] && IntText(n) == Numeral(n);
    assert b[pos..next] == b[pos..start] + b[start..next];
  }

  lemma TokenNonEmpty(text: Bytes)
    requires ParseToken(text).Some?
    ensures |text| > 0
  {}

  lemma IntCanonical(b: Bytes, pos: nat, delim: byte)
    requires pos < |b| && DecodeInt(b, pos, delim).Some? && b[pos] != PLUS
    ensures IntText(DecodeInt(b, pos, delim).value.0) + [delim] == b[pos..DecodeInt(b, pos, delim).value.1]
  {
    hide FindByte, ParseToken, IntText;
    var end := FindByte(b, pos, delim).value;
    TokenNonEmpty(b[pos..end]);
    assert b[pos..end][0] == b[pos];
    TokenCanonical(b[pos..end]);
    assert b[pos..end + 1] == b[pos..end] + [delim];
  }
}

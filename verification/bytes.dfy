/** Bytes, big-endian unsigned fields and ASCII text: the conversions the
    program gets from `struct` ('!H', '!I') and from `str.encode('ascii')` /
    `bytes.decode`. */
module Bytes {
  import opened Results

  type Byte = b: int | 0 <= b < 0x100

  /** The label separator `b'.'`. */
  const Dot: Byte := 46

  predicate IsU16(x: int) {
    0 <= x < 0x1_0000
  }

  /** The unsigned 16-bit value of two big-endian bytes (`struct.unpack('!H', ...)`). */
  function U16(hi: Byte, lo: Byte): (x: int)
    ensures IsU16(x)
  {
    hi * 0x100 + lo
  }

  /** The unsigned 32-bit value of four big-endian bytes (`struct.unpack('!I', ...)`). */
  function U32(b: seq<Byte>): (x: int)
    requires |b| == 4
    ensures 0 <= x < 0x1_0000_0000
  {
    U16(b[0], b[1]) * 0x1_0000 + U16(b[2], b[3])
  }

  /** `struct.pack('!H', x)`: two big-endian bytes, or an error outside 0..65535. */
  function PackU16(x: int): (r: Result<seq<Byte>>)
    ensures r.Ok? <==> IsU16(x)
    ensures r.Ok? ==> |r.value| == 2 && U16(r.value[0], r.value[1]) == x
  {
    if IsU16(x) then Ok([x / 0x100, x % 0x100]) else Err(FieldRange)
  }

  predicate IsAscii(s: string) {
    forall i :: 0 <= i < |s| ==> s[i] < 128 as char
  }

  /** `s.encode('ascii')`: one byte per character, or an error on any
      character outside ASCII. */
  function EncodeAscii(s: string): (r: Result<seq<Byte>>)
    ensures r.Ok? <==> IsAscii(s)
    ensures r.Ok? ==> |r.value| == |s| && forall i :: 0 <= i < |s| ==> r.value[i] == s[i] as int
  {
    if |s| == 0 then Ok([])
    else if s[0] >= 128 as char then Err(NotAscii)
    else
      var rest :- EncodeAscii(s[1..]);
      Ok([s[0] as int] + rest)
  }

  /** `b.decode(...)` restricted to ASCII: one character per byte, or an
      error on any byte of 128 or more. */
  function DecodeAscii(b: seq<Byte>): (r: Result<string>)
    ensures r.Ok? <==> forall i :: 0 <= i < |b| ==> b[i] < 128
    ensures r.Ok? ==> |r.value| == |b| && forall i :: 0 <= i < |b| ==> r.value[i] as int == b[i]
  {
    if |b| == 0 then Ok([])
    else if b[0] >= 128 then Err(NotAscii)
    else
      var rest :- DecodeAscii(b[1..]);
      Ok([b[0] as char] + rest)
  }

  /** Decoding ASCII bytes and encoding the text again gives the bytes back. */
  lemma AsciiRoundTrip(b: seq<Byte>)
    requires DecodeAscii(b).Ok?
    ensures EncodeAscii(DecodeAscii(b).value) == Ok(b)
  {
    var s := DecodeAscii(b).value;
    assert IsAscii(s);
    var r := EncodeAscii(s).value;
    assert forall i :: 0 <= i < |b| ==> r[i] == b[i];
    assert r == b;
  }
}

/** Decimal numerals: Python's `str(n)` for a natural number and `int(s)`
    for a string of digits. */
module Numerals {

  function Digit(d: int): (c: char)
    requires 0 <= d < 10
    ensures '0' <= c <= '9' && c as int - '0' as int == d
  {
    ('0' as int + d) as char
  }

  predicate IsDigits(s: string) {
    forall i :: 0 <= i < |s| ==> '0' <= s[i] <= '9'
  }

  /** `str(n)`: the shortest decimal numeral for `n`, most significant digit first. */
  function ToDecimal(n: nat): (s: string)
    ensures 1 <= |s| && IsDigits(s)
    ensures |s| > 1 ==> s[0] != '0'
  {
    if n < 10 then [Digit(n)] else ToDecimal(n / 10) + [Digit(n % 10)]
  }

  /** `int(s)` for a string of digits. */
  function DecimalValue(s: string): int
  {
    if |s| == 0 then 0 else DecimalValue(s[..|s| - 1]) * 10 + (s[|s| - 1] as int - '0' as int)
  }

  /** Reading back a numeral gives the number it was written from. */
  lemma {:induction false} DecimalRoundTrip(n: nat)
    ensures DecimalValue(ToDecimal(n)) == n
    decreases n
  {
    if n >= 10 {
      DecimalRoundTrip(n / 10);
      var s := ToDecimal(n);
      assert s[..|s| - 1] == ToDecimal(n / 10);
    }
  }
}

/** Little-endian integers and framed keys, as bytes. */
module Bytes {
  import opened Reads
  import opened Bounds

  type byte = b: int | 0 <= b < 256

  function Cap(k: nat): nat {
    if k == 0 then 1 else 256 * Cap(k - 1)
  }

  /** The k bytes of an unsigned integer, the least significant first. */
  function Pack(n: nat, k: nat): (r: seq<byte>)
    ensures |r| == k
  {
    if k == 0 then [] else [n % 256] + Pack(n / 256, k - 1)
  }

  function Unpack(s: seq<byte>): nat {
    if s == [] then 0 else s[0] + 256 * Unpack(s[1..])
  }

  lemma {:induction false} UnpackPack(n: nat, k: nat)
    requires n < Cap(k)
    ensures Unpack(Pack(n, k)) == n
  {
    if k > 0 {
      UnpackPack(n / 256, k - 1);
      assert Pack(n, k)[1..] == Pack(n / 256, k - 1);
    }
  }

  lemma {:induction false} PackUnpack(s: seq<byte>)
    ensures Unpack(s) < Cap(|s|) && Pack(Unpack(s), |s|) == s
  {
    if s != [] {
      PackUnpack(s[1..]);
      assert Unpack(s) / 256 == Unpack(s[1..]) && Unpack(s) % 256 == s[0];
      assert s == [s[0]] + s[1..];
    }
  }

  const UINT32_MAX: nat := 0xFFFF_FFFF
  const INTEGER_LIMIT: int := 0x8000_0000_0000_0000

  lemma {:induction false} Caps()
    ensures Cap(2) == 0x1_0000 && Cap(4) == UINT32_MAX + 1 && Cap(8) == 2 * INTEGER_LIMIT && Cap(1) == 256
  {
    assert Cap(4) == 256 * Cap(3) == 65536 * Cap(2);
    assert Cap(8) == 256 * Cap(7) == 65536 * Cap(6) == 16777216 * Cap(5) == 4294967296 * Cap(4);
  }

  // Strict UTF-8, from section 3 of RFC 3629.

  predicate Continues(b: byte) {
    0x80 <= b < 0xC0
  }

  /** How many bytes the first character takes, or zero when it is malformed. */
  function CharSize(s: seq<byte>): (n: nat)
    ensures n <= |s|
  {
    if s == [] then 0
    else if s[0] < 0x80 then 1
    else if |s| >= 2 && 0xC2 <= s[0] < 0xE0 && Continues(s[1]) then 2
    else if |s| >= 3 && 0xE0 <= s[0] < 0xF0 && Continues(s[1]) && Continues(s[2])
            && (s[0] == 0xE0 ==> s[1] >= 0xA0) && (s[0] == 0xED ==> s[1] < 0xA0) then 3
    else if |s| >= 4 && 0xF0 <= s[0] < 0xF5 && Continues(s[1]) && Continues(s[2]) && Continues(s[3])
            && (s[0] == 0xF0 ==> s[1] >= 0x90) && (s[0] == 0xF4 ==> s[1] < 0x90) then 4
    else 0
  }

  predicate Utf8(s: seq<byte>)
    decreases |s|
  {
    s == [] || (CharSize(s) > 0 && Utf8(s[CharSize(s)..]))
  }

  // Keys.

  /** A key value: a float is its 64 bits, a text its UTF-8 bytes. */
  datatype KeyValue = IntegerValue(v: int) | FloatValue(bits: nat) | BooleanValue(b: bool) | TextValue(utf8: seq<byte>)

  /** The bits without the sign are at most those of infinity. */
  predicate IsNumber(bits: nat) {
    bits % INTEGER_LIMIT <= 0x7FF0_0000_0000_0000
  }

  predicate ValidKey(t: KeyType, k: KeyValue) {
    match t
    case IntegerKey => k.IntegerValue? && -INTEGER_LIMIT <= k.v < INTEGER_LIMIT
    case FloatKey => k.FloatValue? && k.bits < 2 * INTEGER_LIMIT && IsNumber(k.bits)
    case BooleanKey => k.BooleanValue?
    case VarcharKey => k.TextValue? && |k.utf8| <= 255 && Utf8(k.utf8)
  }

  /** The place of a float among the floats: both zeros have the same. */
  function FloatRank(bits: nat): int {
    if bits < INTEGER_LIMIT then bits else INTEGER_LIMIT - bits
  }

  predicate TextLess(a: seq<byte>, b: seq<byte>) {
    b != [] && (a == [] || a[0] < b[0] || (a[0] == b[0] && TextLess(a[1..], b[1..])))
  }

  lemma {:induction false} BytesTotal(a: seq<byte>, b: seq<byte>)
    ensures !TextLess(a, a)
    ensures a == b || TextLess(a, b) || TextLess(b, a)
    ensures !(TextLess(a, b) && TextLess(b, a))
  {
    if a != [] && b != [] {
      BytesTotal(a[1..], b[1..]);
      assert a == [a[0]] + a[1..] && b == [b[0]] + b[1..];
    }
    if a != [] {
      BytesTotal(a[1..], a[1..]);
    }
  }

  predicate KeyLess(a: KeyValue, b: KeyValue) {
    match (a, b)
    case (IntegerValue(x), IntegerValue(y)) => x < y
    case (FloatValue(x), FloatValue(y)) => FloatRank(x) < FloatRank(y)
    case (BooleanValue(x), BooleanValue(y)) => !x && y
    case (TextValue(x), TextValue(y)) => TextLess(x, y)
    case _ => false
  }

  function EncodeKey(k: KeyValue): seq<byte> {
    match k
    case IntegerValue(v) => Pack(v % (2 * INTEGER_LIMIT), 8)
    case FloatValue(bits) => Pack(bits, 8)
    case BooleanValue(b) => [if b then 1 else 0]
    case TextValue(utf8) => Pack(|utf8|, 4) + utf8
  }

  function FromUnsigned(n: nat): int {
    if n < INTEGER_LIMIT then n else n - 2 * INTEGER_LIMIT
  }

  /** Reads one framed key at an offset, and where it ends. */
  function DecodeKey(t: KeyType, p: seq<byte>, at: nat): (r: Option<(KeyValue, nat)>)
    requires at <= |p|
  {
    match t
    case IntegerKey =>
      if at + 8 > |p| then Nothing else Just((IntegerValue(FromUnsigned(Unpack(p[at..at + 8]))), at + 8))
    case FloatKey =>
      if at + 8 > |p| || !IsNumber(Unpack(p[at..at + 8])) then Nothing
          else Just((FloatValue(Unpack(p[at..at + 8])), at + 8))
    case BooleanKey =>
      if at + 1 > |p| || p[at] > 1 then Nothing else Just((BooleanValue(p[at] == 1), at + 1))
    case VarcharKey =>
      if at + 4 > |p| then Nothing
      else
        var n := Unpack(p[at..at + 4]);
        if at + 4 + n > |p| || !Utf8(p[at + 4..at + 4 + n]) || 4 + n > MaximumEncodedKeySize(t) then Nothing
        else Just((TextValue(p[at + 4..at + 4 + n]), at + 4 + n))
  }

  lemma {:induction false} DecodedText(p: seq<byte>, at: nat)
    requires at <= |p| && DecodeKey(VarcharKey, p, at).Just?
    ensures var (k, end) := DecodeKey(VarcharKey, p, at).value;
            at <= end <= |p| && ValidKey(VarcharKey, k) && p[at..end] == EncodeKey(k)
  {
    Caps();
    var n := Unpack(p[at..at + 4]);
    PackUnpack(p[at..at + 4]);
    assert p[at..at + 4 + n] == p[at..at + 4] + p[at + 4..at + 4 + n];
  }

  lemma {:induction false} EncodedText(k: KeyValue, p: seq<byte>, at: nat, end: nat)
    requires ValidKey(VarcharKey, k) && at <= end <= |p| && p[at..end] == EncodeKey(k)
    ensures DecodeKey(VarcharKey, p, at) == Just((k, end))
    ensures |EncodeKey(k)| <= MaximumEncodedKeySize(VarcharKey)
  {
    Caps();
    var e := EncodeKey(k);
    UnpackPack(|k.utf8|, 4);
    assert p[at..at + 4] == e[..4] && p[at + 4..end] == e[4..];
  }

  /** A key that is read is valid, and its bytes are its encoding. */
  lemma {:induction false} DecodedKey(t: KeyType, p: seq<byte>, at: nat)
    requires at <= |p| && DecodeKey(t, p, at).Just?
    ensures var (k, end) := DecodeKey(t, p, at).value;
            at <= end <= |p| && ValidKey(t, k) && p[at..end] == EncodeKey(k)
  {
    Caps();
    match t
    case IntegerKey => PackUnpack(p[at..at + 8]);
    case FloatKey => PackUnpack(p[at..at + 8]);
    case BooleanKey =>
    case VarcharKey => DecodedText(p, at);
  }

  /** An encoded valid key is read back, wherever it stands. */
  lemma {:induction false} EncodedKey(t: KeyType, k: KeyValue, p: seq<byte>, at: nat, end: nat)
    requires ValidKey(t, k) && at <= end <= |p| && p[at..end] == EncodeKey(k)
    ensures DecodeKey(t, p, at) == Just((k, end))
    ensures |EncodeKey(k)| <= MaximumEncodedKeySize(t)
  {
    Caps();
    match t
    case IntegerKey => UnpackPack(k.v % (2 * INTEGER_LIMIT), 8);
    case FloatKey => UnpackPack(k.bits, 8);
    case BooleanKey => assert p[at] == p[at..end][0];
    case VarcharKey => EncodedText(k, p, at, end);
  }
}

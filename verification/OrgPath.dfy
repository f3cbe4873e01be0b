/**
  Organization paths: one to eight segments packed, a byte a level, into one 63-bit number, so that
  subtree membership becomes a range test.
 */
module OrgPath {
  import opened Arithmetic
  import opened Wrappers

  const MAX_LEVEL: nat := 8
  const ROOT_MAX_SEGMENT: int := 127
  const CHILD_MAX_SEGMENT: int := 255

  datatype PathError = WrongLength | SegmentOutOfRange | NegativePath | LevelOutOfRange | LevelMismatch | RangeExhausted

  datatype Range = Range(min: int, max: int)

  // ----- Shifts, masks and unions of bits on unbounded naturals

  function Pow2(k: nat): (p: nat)
    ensures p > 0
  {
    if k == 0 then 1 else 2 * Pow2(k - 1)
  }

  function BitOr(a: nat, b: nat): nat {
    if a == 0 then b else if b == 0 then a
    else 2 * BitOr(a / 2, b / 2) + if a % 2 == 1 || b % 2 == 1 then 1 else 0
  }

  function BitAnd(a: nat, b: nat): nat {
    if a == 0 || b == 0 then 0
    else 2 * BitAnd(a / 2, b / 2) + if a % 2 == 1 && b % 2 == 1 then 1 else 0
  }

  function ShiftLeft(x: nat, k: nat): nat { x * Pow2(k) }

  function ShiftRight(x: nat, k: nat): nat { if k == 0 then x else ShiftRight(x / 2, k - 1) }

  predicate BitAt(x: nat, k: nat) { (x / Pow2(k)) % 2 == 1 }

  lemma BitAtHalf(x: nat, k: nat)
    requires k > 0
    ensures BitAt(x, k) <==> BitAt(x / 2, k - 1)
  {
    DivDiv(x, 2, Pow2(k - 1));
  }

  /** A bit of the union or of the intersection is the or, or the and, of the bits there. */
  lemma {:induction false} BitwiseMeaning(a: nat, b: nat, k: nat)
    ensures BitAt(BitOr(a, b), k) <==> BitAt(a, k) || BitAt(b, k)
    ensures BitAt(BitAnd(a, b), k) <==> BitAt(a, k) && BitAt(b, k)
    decreases k
  {
    LowestBits(a, b);
    if k == 0 {
      LowestBitAt(a);
      LowestBitAt(b);
      LowestBitAt(BitOr(a, b));
      LowestBitAt(BitAnd(a, b));
    } else {
      hide BitAt, BitOr, BitAnd;
      BitAtHalf(a, k);
      BitAtHalf(b, k);
      BitAtHalf(BitOr(a, b), k);
      BitAtHalf(BitAnd(a, b), k);
      BitwiseMeaning(a / 2, b / 2, k - 1);
    }
  }

  lemma LowestBitAt(x: nat)
    ensures BitAt(x, 0) <==> x % 2 == 1
  {
    assert Pow2(0) == 1;
  }

  lemma LowestBits(a: nat, b: nat)
    ensures BitOr(a, b) / 2 == BitOr(a / 2, b / 2) && (BitOr(a, b) % 2 == 1 <==> a % 2 == 1 || b % 2 == 1)
    ensures BitAnd(a, b) / 2 == BitAnd(a / 2, b / 2) && (BitAnd(a, b) % 2 == 1 <==> a % 2 == 1 && b % 2 == 1)
  {
  }

  /** Bits that do not overlap are united by addition. */
  lemma {:induction false} DisjointBitsAdd(x: nat, k: nat, low: nat)
    requires low < Pow2(k)
    ensures BitOr(ShiftLeft(x, k), low) == ShiftLeft(x, k) + low
  {
    if k > 0 {
      var a := ShiftLeft(x, k);
      assert a == 2 * ShiftLeft(x, k - 1) by { assert x * (2 * Pow2(k - 1)) == 2 * (x * Pow2(k - 1)); }
      DisjointBitsAdd(x, k - 1, low / 2);
      if a != 0 && low != 0 {
        assert BitOr(a, low) == 2 * BitOr(a / 2, low / 2) + if low % 2 == 1 then 1 else 0;
      }
    }
  }

  lemma LowestBit(x: nat, m: nat)
    ensures BitAnd(x, 2 * m + 1) == 2 * BitAnd(x / 2, m) + x % 2
  {
  }

  lemma ModOfDouble(x: nat, half: nat)
    requires half > 0
    ensures x % (2 * half) == 2 * ((x / 2) % half) + x % 2
  {
    ModOfDoubleFrom(x, half, x / 2 / half, x / 2 % half, x % 2);
  }

  lemma ModOfDoubleFrom(x: nat, half: nat, q: nat, r: nat, bit: nat)
    requires half > 0 && r < half && bit < 2 && x == 2 * (half * q + r) + bit
    ensures x % (2 * half) == 2 * r + bit
  {
    assert 2 * (half * q) == (2 * half) * q;
    DivModUnique(x, 2 * half, q, 2 * r + bit);
  }

  /** Shifting right divides by a power of two. */
  lemma {:induction false} ShiftRightDivides(x: nat, k: nat)
    ensures ShiftRight(x, k) == x / Pow2(k)
  {
    if k > 0 {
      ShiftRightDivides(x / 2, k - 1);
      DivDiv(x, 2, Pow2(k - 1));
    }
  }

  lemma NoBits(x: nat)
    ensures BitAnd(x, 0) == 0
  {
  }

  /** Masking with 2^k - 1 keeps the remainder modulo 2^k. */
  lemma {:induction false} MaskIsRemainder(x: nat, k: nat)
    ensures BitAnd(x, Pow2(k) - 1) == x % Pow2(k)
  {
    hide BitAnd;
    if k == 0 {
      NoBits(x);
    } else {
      var half := Pow2(k - 1);
      MaskIsRemainder(x / 2, k - 1);
      LowestBit(x, half - 1);
      ModOfDouble(x, half);
    }
  }

  lemma MaskIsByte(x: nat)
    ensures BitAnd(x, 0xff) == x % 256
  {
    hide BitAnd;
    MaskIsRemainder(x, 8);
  }

  function Pow256(n: nat): (p: nat)
    ensures p > 0
  {
    if n == 0 then 1 else 256 * Pow256(n - 1)
  }

  /** Shifting by whole bytes is scaling by powers of 256. */
  lemma {:induction false} WholeBytes(n: nat)
    ensures Pow2(8 * n) == Pow256(n)
  {
    if n > 0 {
      WholeBytes(n - 1);
      var k := 8 * (n - 1);
      assert Pow2(k + 8) == 2 * Pow2(k + 7) && Pow2(k + 7) == 2 * Pow2(k + 6) && Pow2(k + 6) == 2 * Pow2(k + 5);
      assert Pow2(k + 5) == 2 * Pow2(k + 4) && Pow2(k + 4) == 2 * Pow2(k + 3) && Pow2(k + 3) == 2 * Pow2(k + 2);
      assert Pow2(k + 2) == 2 * Pow2(k + 1) && Pow2(k + 1) == 2 * Pow2(k);
    }
  }

  // ----- What encoding and decoding mean

  function MaxSegment(level: int): int { if level == 1 then ROOT_MAX_SEGMENT else CHILD_MAX_SEGMENT }

  predicate ValidSegments(segments: seq<int>) {
    forall i | 0 <= i < |segments| :: 1 <= segments[i] <= MaxSegment(i + 1)
  }

  /** A path that can be encoded: one to eight segments, each in range. */
  predicate ValidPath(segments: seq<int>) {
    1 <= |segments| <= MAX_LEVEL && ValidSegments(segments)
  }

  /** The segment at a level, 0 below the depth of the path. */
  function At(segments: seq<int>, i: nat): int { if i < |segments| then segments[i] else 0 }

  /** The first `n` levels read as a number in base 256. */
  function Packed(segments: seq<int>, n: nat): int {
    if n == 0 then 0 else 256 * Packed(segments, n - 1) + At(segments, n - 1)
  }

  function Encode(segments: seq<int>): Result<int, PathError> {
    if !(1 <= |segments| <= MAX_LEVEL) then Err(WrongLength)
    else if !ValidSegments(segments) then Err(SegmentOutOfRange)
    else Ok(Packed(segments, MAX_LEVEL))
  }

  /** The byte of a number at a level. */
  function ByteAt(path: nat, i: nat): (b: int)
    requires i < MAX_LEVEL
    ensures 0 <= b < 256
  {
    path / Pow256(MAX_LEVEL - i - 1) % 256
  }

  /** The bytes from level `i` on, up to the first zero. */
  function LeadingBytes(path: nat, i: nat): (bytes: seq<int>)
    requires i <= MAX_LEVEL
    ensures |bytes| <= MAX_LEVEL - i
    decreases MAX_LEVEL - i
  {
    if i == MAX_LEVEL || ByteAt(path, i) == 0 then [] else [ByteAt(path, i)] + LeadingBytes(path, i + 1)
  }

  function Decode(path: int): Result<seq<int>, PathError> {
    if path < 0 then Err(NegativePath)
    else if ValidSegments(LeadingBytes(path, 0)) then Ok(LeadingBytes(path, 0)) else Err(SegmentOutOfRange)
  }

  /** The path whose levels below `prefix` are all as large as possible. */
  function Filled(prefix: seq<int>): (filled: seq<int>)
    requires |prefix| <= MAX_LEVEL
    ensures |filled| == MAX_LEVEL && prefix <= filled
    ensures forall i | |prefix| <= i < MAX_LEVEL :: filled[i] == CHILD_MAX_SEGMENT
    decreases MAX_LEVEL - |prefix|
  {
    if |prefix| == MAX_LEVEL then prefix else Filled(prefix + [CHILD_MAX_SEGMENT])
  }

  function PathRange(path: int, level: int): Result<Range, PathError> {
    if !(1 <= level <= MAX_LEVEL) then Err(LevelOutOfRange)
    else
      match Decode(path)
      case Err(e) => Err(e)
      case Ok(segments) =>
        if |segments| < level then Err(LevelMismatch)
        else
          match Encode(segments[..level])
          case Err(e) => Err(e)
          case Ok(min) =>
            match Encode(Filled(segments[..level]))
            case Err(e) => Err(e)
            case Ok(max) => Ok(Range(min, max))
  }

  function IsDescendant(candidate: int, ancestor: int, ancestorLevel: int): Result<bool, PathError> {
    match PathRange(ancestor, ancestorLevel)
    case Err(e) => Err(e)
    case Ok(range) => Ok(range.min <= candidate <= range.max && candidate != ancestor)
  }

  // ----- The operations

  method EncodeOrgPath(segments: seq<int>) returns (r: Result<int, PathError>)
    ensures r == Encode(segments)
  {
    if !(1 <= |segments| <= MAX_LEVEL) { return Err(WrongLength); }
    var valid := ValidateSegments(segments);
    if !valid { return Err(SegmentOutOfRange); }
    var path: nat := 0;
    var index := 0;
    while index < MAX_LEVEL
      invariant 0 <= index <= MAX_LEVEL
      invariant Packed(segments, index) >= 0
      invariant path == Packed(segments, index) * Pow256(MAX_LEVEL - index)
    {
      var segment: nat := At(segments, index);
      var shift := 8 * (MAX_LEVEL - index - 1);
      PlaceSegment(Packed(segments, index), segment, MAX_LEVEL - index - 1);
      path := BitOr(path, ShiftLeft(segment, shift));
      index := index + 1;
    }
    return Ok(path);
  }

  /** Placing a segment in the first free byte extends the packed number by that segment. */
  lemma PlaceSegment(high: nat, segment: nat, free: nat)
    requires segment <= 255
    ensures BitOr(high * Pow256(free + 1), ShiftLeft(segment, 8 * free)) == (256 * high + segment) * Pow256(free)
  {
    hide Pow2, BitOr;
    var unit := Pow256(free);
    WholeBytes(free);
    WholeBytes(free + 1);
    assert segment * unit < 256 * unit by {
      assert 256 * unit - segment * unit == (256 - segment) * unit;
      MulAtLeast(unit, 256 - segment);
    }
    DisjointBitsAdd(high, 8 * (free + 1), ShiftLeft(segment, 8 * free));
    assert high * (256 * unit) + segment * unit == (256 * high + segment) * unit;
  }

  method ValidateSegments(segments: seq<int>) returns (valid: bool)
    ensures valid == ValidSegments(segments)
  {
    for index := 0 to |segments|
      invariant ValidSegments(segments[..index])
    {
      var maxSegment := if index + 1 == 1 then ROOT_MAX_SEGMENT else CHILD_MAX_SEGMENT;
      if segments[index] < 1 || segments[index] > maxSegment { return false; }
    }
    assert segments[..|segments|] == segments;
    return true;
  }

  method DecodeOrgPath(path: int) returns (r: Result<seq<int>, PathError>)
    ensures r == Decode(path)
  {
    if path < 0 { return Err(NegativePath); }
    var segments: seq<int> := [];
    var index := 0;
    while index < MAX_LEVEL
      invariant 0 <= index <= MAX_LEVEL
      invariant LeadingBytes(path, 0) == segments + LeadingBytes(path, index)
    {
      var shift := 8 * (MAX_LEVEL - index - 1);
      WholeBytes(MAX_LEVEL - index - 1);
      ShiftRightDivides(path, shift);
      MaskIsByte(ShiftRight(path, shift));
      var segment := BitAnd(ShiftRight(path, shift), 0xff);
      if segment == 0 {
        assert LeadingBytes(path, index) == [];
        break;
      }
      segments := segments + [segment];
      index := index + 1;
    }
    assert segments == LeadingBytes(path, 0);
    var valid := ValidateSegments(segments);
    if !valid { return Err(SegmentOutOfRange); }
    return Ok(segments);
  }

  method GetOrgPathRange(path: int, level: int) returns (r: Result<Range, PathError>)
    ensures r == PathRange(path, level)
  {
    if level < 1 || level > MAX_LEVEL { return Err(LevelOutOfRange); }
    var decoded := DecodeOrgPath(path);
    if decoded.Err? { return Err(decoded.error); }
    var segments := decoded.value;
    if |segments| < level { return Err(LevelMismatch); }
    var prefix := segments[..level];
    var min := EncodeOrgPath(prefix);
    if min.Err? { return Err(min.error); }
    var maxSegments := prefix;
    while |maxSegments| < MAX_LEVEL
      invariant |maxSegments| <= MAX_LEVEL
      invariant Filled(maxSegments) == Filled(prefix)
    {
      maxSegments := maxSegments + [CHILD_MAX_SEGMENT];
    }
    var max := EncodeOrgPath(maxSegments);
    if max.Err? { return Err(max.error); }
    return Ok(Range(min.value, max.value));
  }

  method IsDescendantPath(candidate: int, ancestor: int, ancestorLevel: int) returns (r: Result<bool, PathError>)
    ensures r == IsDescendant(candidate, ancestor, ancestorLevel)
  {
    var range := GetOrgPathRange(ancestor, ancestorLevel);
    if range.Err? { return Err(range.error); }
    return Ok(candidate >= range.value.min && candidate <= range.value.max && candidate != ancestor);
  }

  /** The least segment free at a level, or exhaustion exactly when none is free. */
  method AllocateNextOrgSegment(usedSegments: seq<int>, level: int) returns (r: Result<int, PathError>)
    ensures r == Err(LevelOutOfRange) <==> !(1 <= level <= MAX_LEVEL)
    ensures r.Ok? ==> 1 <= r.value <= MaxSegment(level) && r.value !in usedSegments
    ensures r.Ok? ==> forall s | 1 <= s < r.value :: s in usedSegments
    ensures r.Err? && 1 <= level <= MAX_LEVEL ==>
              r.error == RangeExhausted && forall s | 1 <= s <= MaxSegment(level) :: s in usedSegments
  {
    if level < 1 || level > MAX_LEVEL { return Err(LevelOutOfRange); }
    var maxSegment := if level == 1 then ROOT_MAX_SEGMENT else CHILD_MAX_SEGMENT;
    var used := set s | s in usedSegments;
    var segment := 1;
    while segment <= maxSegment
      invariant 1 <= segment <= maxSegment + 1
      invariant forall s | 1 <= s < segment :: s in usedSegments
    {
      if segment !in used { return Ok(segment); }
      segment := segment + 1;
    }
    return Err(RangeExhausted);
  }

  // ----- Order and bounds

  predicate Bytes(digits: seq<int>) {
    forall i | 0 <= i < |digits| :: 0 <= digits[i] <= 255
  }

  lemma {:induction false} PackedBounds(digits: seq<int>, n: nat)
    requires Bytes(digits)
    ensures 0 <= Packed(digits, n) < Pow256(n)
  {
    if n > 0 { PackedBounds(digits, n - 1); }
  }

  lemma {:induction false} PackedAgree(a: seq<int>, b: seq<int>, n: nat)
    requires forall i | 0 <= i < n :: At(a, i) == At(b, i)
    ensures Packed(a, n) == Packed(b, n)
  {
    if n > 0 { PackedAgree(a, b, n - 1); }
  }

  /** The first level at which two digit strings differ decides the order of their numbers. */
  lemma {:induction false} FirstDifferenceDecides(a: seq<int>, b: seq<int>, k: nat, n: nat)
    requires Bytes(a) && Bytes(b) && k < n
    requires forall i | 0 <= i < k :: At(a, i) == At(b, i)
    requires At(a, k) < At(b, k)
    ensures Packed(a, n) < Packed(b, n)
    decreases n
  {
    if n == k + 1 {
      PackedAgree(a, b, k);
    } else {
      FirstDifferenceDecides(a, b, k, n - 1);
    }
  }

  /** Lexicographic order on paths, an ancestor before its descendants. */
  predicate LexLess(a: seq<int>, b: seq<int>) {
    exists k | 0 <= k < |b| && k <= |a| :: a[..k] == b[..k] && (k == |a| || a[k] < b[k])
  }

  lemma LexLessIncreases(a: seq<int>, b: seq<int>)
    requires ValidPath(a) && ValidPath(b) && LexLess(a, b)
    ensures Packed(a, MAX_LEVEL) < Packed(b, MAX_LEVEL)
  {
    var k :| 0 <= k < |b| && k <= |a| && a[..k] == b[..k] && (k == |a| || a[k] < b[k]);
    assert forall i | 0 <= i < k :: a[..k][i] == b[..k][i];
    FirstDifferenceDecides(a, b, k, MAX_LEVEL);
  }

  lemma {:induction false} LexTotal(a: seq<int>, b: seq<int>, k: nat)
    requires k <= |a| && k <= |b| && a[..k] == b[..k]
    ensures a == b || LexLess(a, b) || LexLess(b, a)
    decreases |a| - k
  {
    if k < |a| && k < |b| && a[k] == b[k] {
      assert a[..k + 1] == a[..k] + [a[k]] && b[..k + 1] == b[..k] + [b[k]];
      LexTotal(a, b, k + 1);
    } else if k == |a| && k == |b| {
      assert a == a[..k] && b == b[..k];
    }
  }

  const TWO_TO_THE_63: nat := 0x8000_0000_0000_0000

  /** Encoding is strictly monotone into the positive 63-bit numbers, in both directions. */
  lemma EncodeMonotone(a: seq<int>, b: seq<int>)
    requires ValidPath(a) && ValidPath(b)
    ensures 0 < Encode(a).value < TWO_TO_THE_63
    ensures Encode(a).value < Encode(b).value <==> LexLess(a, b)
  {
    EncodedBounds(a);
    LexTotal(a, b, 0);
    if LexLess(a, b) { LexLessIncreases(a, b); }
    if LexLess(b, a) { LexLessIncreases(b, a); }
  }

  /** Encoded paths are positive 63-bit numbers. */
  lemma EncodedBounds(a: seq<int>)
    requires ValidPath(a)
    ensures 0 < Packed(a, MAX_LEVEL) < TWO_TO_THE_63
  {
    TopByte(a, MAX_LEVEL);
    var unit := Pow256(7);
    assert 128 * unit == TWO_TO_THE_63;
    assert 128 * unit - (a[0] + 1) * unit == (127 - a[0]) * unit;
    MulAtLeast(unit, a[0]);
  }

  /** A number of `n` bytes lies in the block of its first byte. */
  lemma {:induction false} TopByte(a: seq<int>, n: nat)
    requires Bytes(a) && |a| > 0 && n >= 1
    ensures a[0] * Pow256(n - 1) <= Packed(a, n) < (a[0] + 1) * Pow256(n - 1)
  {
    if n > 1 {
      TopByte(a, n - 1);
      var unit := Pow256(n - 2);
      assert a[0] * (256 * unit) == 256 * (a[0] * unit);
      assert (a[0] + 1) * (256 * unit) == 256 * ((a[0] + 1) * unit);
    } else {
      assert Packed(a, 1) == 256 * Packed(a, 0) + a[0];
    }
  }

  // ----- Round trips

  /** Dropping the low bytes of a packed number leaves the packed prefix. */
  lemma {:induction false} PrefixOfPacked(digits: seq<int>, n: nat)
    requires Bytes(digits) && n <= MAX_LEVEL && Packed(digits, MAX_LEVEL) >= 0
    ensures Packed(digits, MAX_LEVEL) / Pow256(MAX_LEVEL - n) == Packed(digits, n)
    decreases MAX_LEVEL - n
  {
    if n < MAX_LEVEL {
      PrefixOfPacked(digits, n + 1);
      DivDiv(Packed(digits, MAX_LEVEL), Pow256(MAX_LEVEL - n - 1), 256);
      assert Packed(digits, n + 1) == 256 * Packed(digits, n) + At(digits, n);
    }
  }

  lemma ByteOfPacked(digits: seq<int>, i: nat)
    requires Bytes(digits) && i < MAX_LEVEL
    ensures Packed(digits, MAX_LEVEL) >= 0 && ByteAt(Packed(digits, MAX_LEVEL), i) == At(digits, i)
  {
    LastByte(digits, i);
    hide Pow256, Packed;
    PackedBounds(digits, MAX_LEVEL);
    PrefixOfPacked(digits, i + 1);
  }

  lemma LastByte(digits: seq<int>, i: nat)
    requires Bytes(digits)
    ensures Packed(digits, i + 1) % 256 == At(digits, i)
  {
    hide Pow256;
    assert Packed(digits, i + 1) == 256 * Packed(digits, i) + At(digits, i) && 0 <= At(digits, i) < 256;
  }

  lemma {:induction false} LeadingBytesOfPacked(segments: seq<int>, i: nat)
    requires ValidPath(segments) && i <= |segments|
    ensures Packed(segments, MAX_LEVEL) >= 0
    ensures LeadingBytes(Packed(segments, MAX_LEVEL), i) == segments[i..]
    decreases MAX_LEVEL - i
  {
    PackedBounds(segments, MAX_LEVEL);
    if i < MAX_LEVEL {
      ByteOfPacked(segments, i);
      if i < |segments| { LeadingBytesOfPacked(segments, i + 1); }
    }
  }

  /** Decoding undoes encoding. */
  lemma DecodeAfterEncode(segments: seq<int>)
    requires Encode(segments).Ok?
    ensures Decode(Encode(segments).value) == Ok(segments)
  {
    LeadingBytesOfPacked(segments, 0);
  }

  /** No non-zero byte comes after a zero byte. */
  predicate GapFree(path: nat) {
    forall i, j | 0 <= i < j < MAX_LEVEL && ByteAt(path, i) == 0 :: ByteAt(path, j) == 0
  }

  lemma {:induction false} LeadingBytesAre(path: nat, i: nat)
    requires i <= MAX_LEVEL
    ensures var bytes := LeadingBytes(path, i);
            && (forall j | 0 <= j < |bytes| :: bytes[j] == ByteAt(path, i + j) && bytes[j] != 0)
            && (i + |bytes| < MAX_LEVEL ==> ByteAt(path, i + |bytes|) == 0)
    decreases MAX_LEVEL - i
  {
    if i < MAX_LEVEL && ByteAt(path, i) != 0 { LeadingBytesAre(path, i + 1); }
  }

  /** A number of at most eight bytes is the packing of those bytes. */
  lemma {:induction false} PackedFromBytes(path: nat, digits: seq<int>, n: nat)
    requires path < Pow256(MAX_LEVEL) && n <= MAX_LEVEL
    requires forall i | 0 <= i < MAX_LEVEL :: At(digits, i) == ByteAt(path, i)
    ensures Packed(digits, n) == path / Pow256(MAX_LEVEL - n)
  {
    if n > 0 {
      PackedFromBytes(path, digits, n - 1);
      var unit := Pow256(MAX_LEVEL - n);
      DivDiv(path, unit, 256);
      assert At(digits, n - 1) == path / unit % 256;
    }
  }

  /**
    Encoding undoes decoding exactly on the positive 63-bit numbers without a gap: zero decodes to the
    empty path, which cannot be encoded, and bytes above the eighth are lost.
   */
  lemma EncodeAfterDecode(path: int)
    ensures (Decode(path).Ok? && Encode(Decode(path).value) == Ok(path))
        <==> (0 < path < TWO_TO_THE_63 && GapFree(path))
  {
    if path >= 0 {
      var bytes := LeadingBytes(path, 0);
      if Decode(path).Ok? && Encode(bytes) == Ok(path) { EncodableIsGapFree(bytes); }
      if 0 < path < TWO_TO_THE_63 && GapFree(path) { GapFreeRoundTrip(path); }
    }
  }

  lemma EncodableIsGapFree(segments: seq<int>)
    requires ValidPath(segments)
    ensures 0 < Packed(segments, MAX_LEVEL) < TWO_TO_THE_63 && GapFree(Packed(segments, MAX_LEVEL))
  {
    hide Packed, Pow256, ByteAt;
    EncodedBounds(segments);
    forall i, j | 0 <= i < j < MAX_LEVEL && ByteAt(Packed(segments, MAX_LEVEL), i) == 0
      ensures ByteAt(Packed(segments, MAX_LEVEL), j) == 0
    {
      ByteOfPacked(segments, i);
      ByteOfPacked(segments, j);
    }
  }

  lemma GapFreeRoundTrip(path: nat)
    requires 0 < path < TWO_TO_THE_63 && GapFree(path)
    ensures Decode(path).Ok? && Encode(Decode(path).value) == Ok(path)
  {
    hide Packed, LeadingBytes, ByteAt;
    var bytes := LeadingBytes(path, 0);
    LeadingBytesAre(path, 0);
    assert Pow256(MAX_LEVEL) == 2 * TWO_TO_THE_63;
    assert Pow256(0) == 1;
    PackedFromBytes(path, bytes, MAX_LEVEL);
    if |bytes| == 0 {
      ZeroPacked(MAX_LEVEL);
    } else {
      TopByte(bytes, MAX_LEVEL);
      if bytes[0] >= 128 { HighByte(bytes[0]); }
    }
  }

  /** A leading byte from 128 on makes a number of 2^63 or more. */
  lemma HighByte(byte: int)
    requires byte >= 128
    ensures byte * Pow256(7) >= TWO_TO_THE_63
  {
    var unit := Pow256(7);
    assert 128 * unit == TWO_TO_THE_63;
    NonNegativeProduct(byte - 128, unit);
    assert byte * unit == 128 * unit + (byte - 128) * unit;
  }

  lemma {:induction false} ZeroPacked(n: nat)
    ensures Packed([], n) == 0
  {
    if n > 0 { ZeroPacked(n - 1); }
  }

  // ----- Ranges decide ancestry

  /** The numbers of the paths at or below `a`. */
  function Subtree(a: seq<int>): Range
    requires ValidPath(a)
  {
    Range(Packed(a, MAX_LEVEL), Packed(Filled(a), MAX_LEVEL))
  }

  lemma RangeOfEncoded(a: seq<int>)
    requires ValidPath(a)
    ensures PathRange(Encode(a).value, |a|) == Ok(Subtree(a))
  {
    DecodeAfterEncode(a);
    assert a[..|a|] == a;
    FilledValid(a);
  }

  lemma FilledValid(a: seq<int>)
    requires ValidPath(a)
    ensures ValidPath(Filled(a))
  {
    forall i | 0 <= i < MAX_LEVEL ensures 1 <= Filled(a)[i] <= MaxSegment(i + 1) {
      if i < |a| { assert Filled(a)[i] == a[i]; }
    }
  }

  /** A path lies in the subtree range of `a` exactly when `a` is a prefix of it. */
  lemma SubtreeIsPrefixes(a: seq<int>, c: seq<int>)
    requires ValidPath(a) && ValidPath(c)
    ensures Subtree(a).min <= Packed(c, MAX_LEVEL) <= Subtree(a).max <==> a <= c
  {
    var top := Filled(a);
    FilledValid(a);
    if a <= c {
      NotBelow(a, c);
      if top != c { NotAbove(c, top, |a|); }
    } else {
      LexTotal(a, c, 0);
      if LexLess(c, a) {
        LexLessIncreases(c, a);
      } else {
        var k :| 0 <= k < |c| && k <= |a| && a[..k] == c[..k] && (k == |a| || a[k] < c[k]);
        assert a[..|a|] == a && c[..k] <= c;
        assert forall i | 0 <= i < k :: a[..k][i] == c[..k][i];
        FirstDifferenceDecides(top, c, k, MAX_LEVEL);
      }
    }
  }

  lemma NotBelow(a: seq<int>, c: seq<int>)
    requires ValidPath(a) && ValidPath(c) && a <= c
    ensures Packed(a, MAX_LEVEL) <= Packed(c, MAX_LEVEL)
  {
    if |a| < |c| {
      FirstDifferenceDecides(a, c, |a|, MAX_LEVEL);
    } else {
      assert a == c;
    }
  }

  /** Nothing that agrees with `top` up to level `k`, where `top` is all 255, exceeds it. */
  lemma {:induction false} NotAbove(c: seq<int>, top: seq<int>, k: nat)
    requires ValidPath(c) && |top| == MAX_LEVEL && Bytes(top) && k <= MAX_LEVEL
    requires forall i | 0 <= i < k :: At(c, i) == At(top, i)
    requires forall i | k <= i < MAX_LEVEL :: top[i] == CHILD_MAX_SEGMENT
    ensures Packed(c, MAX_LEVEL) <= Packed(top, MAX_LEVEL)
    decreases MAX_LEVEL - k
  {
    if k == MAX_LEVEL {
      PackedAgree(c, top, MAX_LEVEL);
    } else if At(c, k) == At(top, k) {
      NotAbove(c, top, k + 1);
    } else {
      FirstDifferenceDecides(c, top, k, MAX_LEVEL);
    }
  }

  /** The range test decides strict ancestry of encoded paths. */
  lemma RangeTestDecidesAncestry(c: seq<int>, a: seq<int>)
    requires ValidPath(a) && ValidPath(c)
    ensures IsDescendant(Encode(c).value, Encode(a).value, |a|) == Ok(a < c)
  {
    hide PathRange, Packed, Filled;
    RangeOfEncoded(a);
    SubtreeIsPrefixes(a, c);
    if a <= c && |a| == |c| { assert a == c; }
    if Encode(c).value == Encode(a).value {
      DecodeAfterEncode(a);
      DecodeAfterEncode(c);
    }
  }

  /** Two prefixes of one path are prefixes of one another. */
  lemma PrefixesComparable(a: seq<int>, b: seq<int>, c: seq<int>)
    requires a <= c && b <= c
    ensures a <= b || b <= a
  {
    if |a| <= |b| { assert a == c[..|a|] && b == c[..|b|]; }
  }

  /** Any two subtree ranges are nested, along the tree, or disjoint. */
  lemma SubtreesNestedOrDisjoint(a: seq<int>, b: seq<int>)
    requires ValidPath(a) && ValidPath(b)
    ensures a <= b ==> Subtree(a).min <= Subtree(b).min && Subtree(b).max <= Subtree(a).max
    ensures !(a <= b) && !(b <= a) ==> Subtree(a).max < Subtree(b).min || Subtree(b).max < Subtree(a).min
  {
    hide Packed;
    FilledValid(a);
    FilledValid(b);
    SubtreeIsPrefixes(a, b);
    SubtreeIsPrefixes(a, Filled(b));
    SubtreeIsPrefixes(b, a);
    SubtreeIsPrefixes(b, Filled(a));
    NotBelow(a, Filled(a));
    NotBelow(b, Filled(b));
    if a <= Filled(b) { PrefixesComparable(a, b, Filled(b)); }
    if b <= Filled(a) { PrefixesComparable(a, b, Filled(a)); }
  }
}

/** `Krand(size, kind)`: a random string of `size` bytes drawn from one of three
    character classes (digits, lower-case or upper-case letters) or, for any
    other `kind`, from a class chosen afresh for each position.

    The pseudo-random generator is replaced by an oracle: `draws` lists, in the
    order they are made, the values the calls `rand.Intn(n)` return. Every draw
    honours its bound `0 <= draw < n`, which is the one thing `Intn` promises;
    the model says nothing else about randomness. */
module RandomString {
  import opened Bytes

  const KindNum: int := 0    // digits only
  const KindLower: int := 1  // lower-case letters only
  const KindUpper: int := 2  // upper-case letters only
  const KindAll: int := 3    // digits and letters of both cases

  /** The character classes, indexed by kind, as (scope, base): the class holds
      the `scope` bytes starting at `base`. */
  const Kinds: seq<(int, int)> := [(10, 48), (26, 97), (26, 65)]

  /** Every kind outside 0..2 picks the class per position. */
  predicate IsAll(kind: int) {
    kind > 2 || kind < 0
  }

  /** Draws consumed per position: the class draw (when picked per position),
      then the offset draw. */
  function Stride(kind: int): nat {
    if IsAll(kind) then 2 else 1
  }

  predicate IsDigit(b: byte) { 48 <= b <= 57 }    // '0'..'9'
  predicate IsLower(b: byte) { 97 <= b <= 122 }   // 'a'..'z'
  predicate IsUpper(b: byte) { 65 <= b <= 90 }    // 'A'..'Z'

  /** The bytes `Krand` may put in a string of the given kind. */
  predicate Allowed(kind: int, b: byte) {
    if kind == KindNum then IsDigit(b)
    else if kind == KindLower then IsLower(b)
    else if kind == KindUpper then IsUpper(b)
    else IsDigit(b) || IsLower(b) || IsUpper(b)
  }

  /** The class position `i` is drawn from. */
  function ClassAt(kind: int, draws: seq<int>, i: nat): int
    requires (i + 1) * Stride(kind) <= |draws|
  {
    if IsAll(kind) then draws[2 * i] else kind
  }

  /** The offset draw of position `i`. */
  function OffsetAt(kind: int, draws: seq<int>, i: nat): int
    requires (i + 1) * Stride(kind) <= |draws|
  {
    if IsAll(kind) then draws[2 * i + 1] else draws[i]
  }

  /** The draws of position `i` honour the bounds of the `Intn` calls that made
      them: `Intn(3)` for the class, `Intn(scope)` of that class for the offset. */
  predicate PositionFits(kind: int, draws: seq<int>, i: nat) {
    (i + 1) * Stride(kind) <= |draws| &&
    0 <= ClassAt(kind, draws, i) < 3 &&
    0 <= OffsetAt(kind, draws, i) < Kinds[ClassAt(kind, draws, i)].0
  }

  /** The oracle holds enough in-bound draws for `size` positions. */
  predicate DrawsFit(kind: int, draws: seq<int>, size: nat) {
    size * Stride(kind) <= |draws| &&
    forall i: nat :: i < size ==> PositionFits(kind, draws, i)
  }

  /** The byte position `i` receives: `uint8(base + Intn(scope))`. */
  function ByteAt(kind: int, draws: seq<int>, i: nat): (b: byte)
    requires PositionFits(kind, draws, i)
    ensures Allowed(kind, b)
  {
    var k := ClassAt(kind, draws, i);
    ToUint8(Kinds[k].1 + OffsetAt(kind, draws, i))
  }

  /** The generator: allocates `size` bytes and fills them one position at a
      time, drawing the class first when `kind` is outside 0..2. */
  method Krand(size: int, kind: int, draws: seq<int>) returns (result: array<byte>)
    requires size >= 0  // `make([]byte, size)` panics on a negative length
    requires DrawsFit(kind, draws, size)
    ensures fresh(result) && result.Length == size
    ensures forall i: nat :: i < size ==> Allowed(kind, result[i])
    ensures forall i: nat :: i < size ==> result[i] == ByteAt(kind, draws, i)
  {
    var ikind := kind;
    var isAll := IsAll(kind);
    result := new byte[size];
    var next := 0;  // how many draws have been taken from the oracle
    for i := 0 to size
      invariant next == i * Stride(kind)
      invariant !isAll ==> ikind == kind
      invariant forall j: nat :: j < i ==> result[j] == ByteAt(kind, draws, j)
    {
      assert PositionFits(kind, draws, i);
      if isAll {
        ikind := draws[next];  // rand.Intn(3)
        next := next + 1;
      }
      var scope, base := Kinds[ikind].0, Kinds[ikind].1;
      result[i] := ToUint8(base + draws[next]);  // rand.Intn(scope)
      next := next + 1;
    }
  }

  /** The class and offset that produce an allowed byte. */
  function ClassOf(b: byte): (k: int)
    requires IsDigit(b) || IsLower(b) || IsUpper(b)
    ensures 0 <= k < 3
    ensures Kinds[k].1 <= b as int < Kinds[k].1 + Kinds[k].0
  {
    if IsDigit(b) then 0 else if IsLower(b) then 1 else 2
  }

  /** Draws that make `Krand` produce `s`. */
  function DrawsFor(kind: int, s: seq<byte>): (draws: seq<int>)
    requires forall i :: 0 <= i < |s| ==> Allowed(kind, s[i])
  {
    if IsAll(kind) then
      seq(2 * |s|, j requires 0 <= j < 2 * |s| =>
        assert 0 <= j / 2 < |s| && Allowed(kind, s[j / 2]);
        var k := ClassOf(s[j / 2]);
        if j % 2 == 0 then k else s[j / 2] as int - Kinds[k].1)
    else
      seq(|s|, j requires 0 <= j < |s| => s[j] as int - Kinds[kind].1)
  }

  /** Completeness: every string of allowed bytes is what `Krand` returns for
      some run of the random source. With the ensures of `Krand`, the strings
      `Krand(size, kind)` can return are exactly the strings of `size` allowed
      bytes. */
  lemma EveryAllowedStringIsReachable(kind: int, s: seq<byte>)
    requires forall i :: 0 <= i < |s| ==> Allowed(kind, s[i])
    ensures DrawsFit(kind, DrawsFor(kind, s), |s|)
    ensures forall i: nat :: i < |s| ==> ByteAt(kind, DrawsFor(kind, s), i) == s[i]
  {
    var draws := DrawsFor(kind, s);
    forall i: nat | i < |s|
      ensures PositionFits(kind, draws, i) && ByteAt(kind, draws, i) == s[i]
    {
      if IsAll(kind) {
        assert (2 * i) / 2 == i && (2 * i) % 2 == 0;
        assert (2 * i + 1) / 2 == i && (2 * i + 1) % 2 == 1;
        assert ClassAt(kind, draws, i) == ClassOf(s[i]);
      }
    }
  }
}

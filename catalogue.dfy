/**
 * The piece-type catalogue of the server generator (server/src/rooms/puzzleGeneration.js):
 * the 64 four-digit signatures (top, right, bottom, left; 0 innie, 1 outtie, 2 flat), their
 * parsed slot types, and the order in which JavaScript enumerates the lookup object keyed by them.
 */
module Catalogue {
  import opened Wrappers

  /** The catalogue, in the four groups the source lists: two-valued, then top innie, outtie and flat. */
  const TwoValued: seq<string> := [
    "0000", "0001", "0010", "0011", "0100", "0101", "0110", "0111",
    "1000", "1001", "1010", "1011", "1100", "1101", "1110", "1111"]
  const TopInnie: seq<string> := [
    "0002", "0012", "0020", "0021", "0022", "0102", "0112", "0120",
    "0121", "0122", "0200", "0201", "0210", "0211", "0220", "0221"]
  const TopOuttie: seq<string> := [
    "1002", "1012", "1020", "1021", "1022", "1102", "1112", "1120",
    "1121", "1122", "1200", "1201", "1210", "1211", "1220", "1221"]
  const TopFlat: seq<string> := [
    "2000", "2001", "2002", "2010", "2011", "2012", "2100", "2101",
    "2102", "2110", "2111", "2112", "2200", "2201", "2210", "2211"]

  /** `PIECE_TYPES`. */
  const PieceTypes: seq<string> := TwoValued + TopInnie + TopOuttie + TopFlat

  predicate IsDigit(c: char) { '0' <= c <= '9' }

  function DigitValue(c: char): nat
    requires IsDigit(c)
  {
    (c as int - '0' as int) as nat
  }

  /** `parseInt` of a one-character string: its digit value, none (NaN) for anything else. */
  function ParseDigit(c: char): (r: Option<nat>)
    ensures r.Some? <==> IsDigit(c)
    ensures r.Some? ==> r.value <= 9
  {
    if IsDigit(c) then Some(DigitValue(c)) else None
  }

  predicate AllDigits(t: string) {
    forall i :: 0 <= i < |t| ==> IsDigit(t[i])
  }

  /** `type.split("").map(parseInt)` for a string of digits. */
  function SlotsOf(t: string): (r: seq<int>)
    requires AllDigits(t)
    ensures |r| == |t| && forall i :: 0 <= i < |t| ==> ParseDigit(t[i]) == Some(r[i])
  {
    seq(|t|, i requires 0 <= i < |t| => DigitValue(t[i]) as int)
  }

  /** The character a tab type 0, 1 or 2 is written as. */
  function TabChar(t: int): char
    requires 0 <= t <= 2
  {
    if t == 0 then '0' else if t == 1 then '1' else '2'
  }

  predicate IsTabChar(c: char) { c == '0' || c == '1' || c == '2' }

  /**
   * A piece signature: four tab characters, never flat on both top and bottom
   * nor on both left and right.
   */
  predicate IsSignature(t: string) {
    |t| == 4 && IsTabChar(t[0]) && IsTabChar(t[1]) && IsTabChar(t[2]) && IsTabChar(t[3]) &&
    !(t[0] == '2' && t[2] == '2') && !(t[1] == '2' && t[3] == '2')
  }

  lemma CatalogueSize()
    ensures |PieceTypes| == 64
  {
  }

  lemma BlockSignatures(b: seq<string>)
    requires b == TwoValued || b == TopInnie || b == TopOuttie || b == TopFlat
    ensures forall i | 0 <= i < |b| :: IsSignature(b[i])
  {
    forall i | 0 <= i < |b|
      ensures IsSignature(b[i])
    {
      assert i == 0 || i == 1 || i == 2 || i == 3 || i == 4 || i == 5 || i == 6 || i == 7 ||
             i == 8 || i == 9 || i == 10 || i == 11 || i == 12 || i == 13 || i == 14 || i == 15;
    }
  }

  /** Every catalogue entry is a signature: four digits over {0, 1, 2}, no opposite flat sides. */
  lemma CatalogueSignatures()
    ensures forall t :: t in PieceTypes ==> IsSignature(t)
  {
    BlockSignatures(TwoValued);
    BlockSignatures(TopInnie);
    BlockSignatures(TopOuttie);
    BlockSignatures(TopFlat);
    forall t | t in PieceTypes
      ensures IsSignature(t)
    {
      var i :| 0 <= i < |PieceTypes| && PieceTypes[i] == t;
      if i < 16 {
        assert t == TwoValued[i];
      } else if i < 32 {
        assert t == TopInnie[i - 16];
      } else if i < 48 {
        assert t == TopOuttie[i - 32];
      } else {
        assert t == TopFlat[i - 48];
      }
    }
  }

  /** Conversely every signature is in the catalogue: it lists all 8 x 8 of them. */
  lemma CatalogueComplete(top: int, right: int, bottom: int, left: int)
    requires 0 <= top <= 2 && 0 <= right <= 2 && 0 <= bottom <= 2 && 0 <= left <= 2
    requires !(top == 2 && bottom == 2) && !(right == 2 && left == 2)
    ensures [TabChar(top), TabChar(right), TabChar(bottom), TabChar(left)] in PieceTypes
  {
  }

  lemma SignatureSlots(t: string)
    requires IsSignature(t)
    ensures AllDigits(t)
    ensures var s := SlotsOf(t);
            |s| == 4 && (forall i :: 0 <= i < 4 ==> 0 <= s[i] <= 2 && TabChar(s[i]) == t[i]) &&
            !(s[0] == 2 && s[2] == 2) && !(s[1] == 2 && s[3] == 2)
  {
  }

  /** Signatures are determined by their slot types. */
  lemma SignatureFromSlots(t: string, top: int, right: int, bottom: int, left: int)
    requires 0 <= top <= 2 && 0 <= right <= 2 && 0 <= bottom <= 2 && 0 <= left <= 2
    requires t == [TabChar(top), TabChar(right), TabChar(bottom), TabChar(left)]
    ensures AllDigits(t) && SlotsOf(t) == [top, right, bottom, left]
  {
  }

  /** Distinct positions of the catalogue hold distinct signatures. */
  lemma BlockDistinct(b: seq<string>)
    requires b == TwoValued || b == TopInnie || b == TopOuttie || b == TopFlat
    ensures forall i, j | 0 <= i < j < |b| :: b[i] != b[j]
  {
    forall i, j | 0 <= i < j < |b|
      ensures b[i] != b[j]
    {
      assert i == 0 || i == 1 || i == 2 || i == 3 || i == 4 || i == 5 || i == 6 || i == 7 ||
             i == 8 || i == 9 || i == 10 || i == 11 || i == 12 || i == 13 || i == 14 || i == 15;
      assert j == 0 || j == 1 || j == 2 || j == 3 || j == 4 || j == 5 || j == 6 || j == 7 ||
             j == 8 || j == 9 || j == 10 || j == 11 || j == 12 || j == 13 || j == 14 || j == 15;
    }
  }

  /** Which of the four source groups a signature belongs to. */
  function GroupOf(t: string): int
    requires |t| == 4
  {
    if t[0] != '2' && t[1] != '2' && t[2] != '2' && t[3] != '2' then 0
    else if t[0] == '0' then 1
    else if t[0] == '1' then 2
    else 3
  }

  lemma BlockGroup(b: seq<string>, g: int)
    requires (b == TwoValued && g == 0) || (b == TopInnie && g == 1) || (b == TopOuttie && g == 2) || (b == TopFlat && g == 3)
    ensures forall i | 0 <= i < |b| :: |b[i]| == 4 && GroupOf(b[i]) == g
  {
    forall i | 0 <= i < |b|
      ensures |b[i]| == 4 && GroupOf(b[i]) == g
    {
      assert i == 0 || i == 1 || i == 2 || i == 3 || i == 4 || i == 5 || i == 6 || i == 7 ||
             i == 8 || i == 9 || i == 10 || i == 11 || i == 12 || i == 13 || i == 14 || i == 15;
    }
  }

  predicate Distinct(s: seq<string>) {
    forall i, j | 0 <= i < j < |s| :: s[i] != s[j]
  }

  lemma ConcatDistinct(a: seq<string>, b: seq<string>)
    requires Distinct(a) && Distinct(b)
    requires forall i, j | 0 <= i < |a| && 0 <= j < |b| :: a[i] != b[j]
    ensures Distinct(a + b)
  {
    forall i, j | 0 <= i < j < |a + b|
      ensures (a + b)[i] != (a + b)[j]
    {
      if i >= |a| {
        assert (a + b)[i] == b[i - |a|];
      }
      if j >= |a| {
        assert (a + b)[j] == b[j - |a|];
      }
    }
  }

  /** The catalogue lists no signature twice, so the lookup object keyed by it has 64 entries. */
  lemma CatalogueDistinct()
    ensures Distinct(PieceTypes)
  {
    BlockDistinct(TwoValued);
    BlockDistinct(TopInnie);
    BlockDistinct(TopOuttie);
    BlockDistinct(TopFlat);
    BlockGroup(TwoValued, 0);
    BlockGroup(TopInnie, 1);
    BlockGroup(TopOuttie, 2);
    BlockGroup(TopFlat, 3);
    var a := TwoValued + TopInnie;
    ConcatDistinct(TwoValued, TopInnie);
    assert forall i | 0 <= i < |a| :: GroupOf(a[i]) <= 1;
    ConcatDistinct(a, TopOuttie);
    var b := a + TopOuttie;
    assert forall i | 0 <= i < |b| :: GroupOf(b[i]) <= 2;
    ConcatDistinct(b, TopFlat);
  }

  /** The decimal value of a string of digits. */
  function DecimalValue(k: string): nat
    requires AllDigits(k)
  {
    if k == [] then 0 else DecimalValue(k[..|k| - 1]) * 10 + DigitValue(k[|k| - 1])
  }

  /**
   * A property key that JavaScript treats as an array index: a canonical decimal numeral
   * (no leading zero) below 2^32 - 1.
   */
  predicate IsArrayIndexKey(k: string) {
    |k| >= 1 && AllDigits(k) && (k[0] != '0' || |k| == 1) && DecimalValue(k) < 0xFFFF_FFFF
  }

  /** The array-index keys of `keys`, in insertion order. */
  function IndexKeys(keys: seq<string>): (r: seq<string>)
    ensures AllIndexKeys(r)
  {
    if keys == [] then []
    else (if IsArrayIndexKey(keys[0]) then [keys[0]] else []) + IndexKeys(keys[1..])
  }

  /** The other keys of `keys`, in insertion order. */
  function NamedKeys(keys: seq<string>): (r: seq<string>)
    ensures forall k :: k in r ==> !IsArrayIndexKey(k)
  {
    if keys == [] then []
    else (if IsArrayIndexKey(keys[0]) then [] else [keys[0]]) + NamedKeys(keys[1..])
  }

  predicate AllIndexKeys(s: seq<string>) {
    forall i | 0 <= i < |s| :: IsArrayIndexKey(s[i])
  }

  /** The numeric value by which array-index keys are ordered. */
  function KeyValue(k: string): nat {
    if AllDigits(k) then DecimalValue(k) else 0
  }

  predicate SortedByValue(s: seq<string>) {
    forall i, j | 0 <= i < j < |s| :: KeyValue(s[i]) <= KeyValue(s[j])
  }

  function InsertByValue(k: string, s: seq<string>): (r: seq<string>)
    ensures |r| == |s| + 1 && multiset(r) == multiset(s) + multiset{k}
  {
    if s == [] then [k]
    else if KeyValue(k) <= KeyValue(s[0]) then [k] + s
    else
      assert s == [s[0]] + s[1..];
      [s[0]] + InsertByValue(k, s[1..])
  }

  lemma {:induction false} InsertLowerBound(k: string, s: seq<string>, b: nat)
    requires b <= KeyValue(k) && forall i | 0 <= i < |s| :: b <= KeyValue(s[i])
    ensures forall i | 0 <= i < |InsertByValue(k, s)| :: b <= KeyValue(InsertByValue(k, s)[i])
  {
    if s != [] && KeyValue(k) > KeyValue(s[0]) {
      InsertLowerBound(k, s[1..], b);
    }
  }

  lemma {:induction false} InsertKeepsSorted(k: string, s: seq<string>)
    requires SortedByValue(s)
    ensures SortedByValue(InsertByValue(k, s))
  {
    if s != [] && KeyValue(k) > KeyValue(s[0]) {
      InsertKeepsSorted(k, s[1..]);
      InsertLowerBound(k, s[1..], KeyValue(s[0]));
    }
  }

  lemma {:induction false} InsertKeepsIndexKeys(k: string, s: seq<string>)
    requires IsArrayIndexKey(k) && AllIndexKeys(s)
    ensures AllIndexKeys(InsertByValue(k, s))
  {
    if s != [] && KeyValue(k) > KeyValue(s[0]) {
      InsertKeepsIndexKeys(k, s[1..]);
    }
  }

  function SortByValue(s: seq<string>): (r: seq<string>)
    ensures |r| == |s| && multiset(r) == multiset(s)
  {
    if s == [] then []
    else
      assert s == [s[0]] + s[1..];
      InsertByValue(s[0], SortByValue(s[1..]))
  }

  lemma {:induction false} SortIsSorted(s: seq<string>)
    ensures SortedByValue(SortByValue(s))
    ensures AllIndexKeys(s) ==> AllIndexKeys(SortByValue(s))
  {
    if s != [] {
      SortIsSorted(s[1..]);
      InsertKeepsSorted(s[0], SortByValue(s[1..]));
      if AllIndexKeys(s) {
        InsertKeepsIndexKeys(s[0], SortByValue(s[1..]));
      }
    }
  }

  /**
   * The order in which `Object.entries` visits an object whose keys were inserted in the
   * order `keys`: array-index keys first in ascending numeric order, then the others in
   * insertion order.
   */
  function PropertyOrder(keys: seq<string>): seq<string> {
    SortByValue(IndexKeys(keys)) + NamedKeys(keys)
  }

  lemma {:induction false} KeysSplit(keys: seq<string>)
    ensures multiset(IndexKeys(keys)) + multiset(NamedKeys(keys)) == multiset(keys)
  {
    if keys != [] {
      KeysSplit(keys[1..]);
      assert keys == [keys[0]] + keys[1..];
    }
  }

  /** Enumeration visits every key exactly as often as it was inserted, index keys first and sorted. */
  lemma PropertyOrderIsPermutation(keys: seq<string>)
    ensures multiset(PropertyOrder(keys)) == multiset(keys)
    ensures var n := |IndexKeys(keys)|;
            var order := PropertyOrder(keys);
            AllIndexKeys(order[..n]) && SortedByValue(order[..n]) &&
            (forall k :: k in order[n..] ==> !IsArrayIndexKey(k))
  {
    KeysSplit(keys);
    SortIsSorted(IndexKeys(keys));
    var order := PropertyOrder(keys);
    var n := |IndexKeys(keys)|;
    assert order[..n] == SortByValue(IndexKeys(keys));
    assert order[n..] == NamedKeys(keys);
  }

  /** Enumeration visits exactly the inserted keys. */
  lemma PropertyOrderKeepsKeys(keys: seq<string>)
    ensures forall t :: t in PropertyOrder(keys) <==> t in keys
    ensures |PropertyOrder(keys)| == |keys|
  {
    PropertyOrderIsPermutation(keys);
    assert forall t :: t in PropertyOrder(keys) <==> t in multiset(PropertyOrder(keys));
    assert |PropertyOrder(keys)| == |multiset(PropertyOrder(keys))|;
  }

  /** `Object.keys(pieceTypeMap)`: the catalogue in enumeration order. */
  function PieceTypeMapKeys(): seq<string> {
    PropertyOrder(PieceTypes)
  }

  /** The lookup object holds exactly the catalogue signatures, each once. */
  lemma PieceTypeMapHoldsCatalogue()
    ensures forall t :: t in PieceTypeMapKeys() <==> t in PieceTypes
    ensures |PieceTypeMapKeys()| == 64
  {
    PropertyOrderKeepsKeys(PieceTypes);
  }

  /** An inclusive range of admissible tab types for one side. */
  datatype Range = Range(lo: int, hi: int)

  /**
   * Whether slot `i` of the entry named `t` passes the range check. A slot that does not parse
   * as a digit is NaN, and NaN fails both comparisons, so it passes.
   */
  predicate SlotWithin(t: string, i: nat, r: Range) {
    i >= |t| || match ParseDigit(t[i]) case None => true case Some(v) => r.lo <= v <= r.hi
  }

  /** The entry named `t` passes all four range checks. */
  predicate Fits(t: string, cons: seq<Range>)
    requires |cons| == 4
  {
    SlotWithin(t, 0, cons[0]) && SlotWithin(t, 1, cons[1]) && SlotWithin(t, 2, cons[2]) && SlotWithin(t, 3, cons[3])
  }

  /** The entries of `keys` that pass all four range checks, in the order they are visited. */
  function FilterFitting(keys: seq<string>, cons: seq<Range>): (r: seq<string>)
    requires |cons| == 4
    ensures forall t :: t in r <==> t in keys && Fits(t, cons)
    ensures r == [] <==> forall t :: t in keys ==> !Fits(t, cons)
  {
    if keys == [] then []
    else
      assert forall t :: t in keys <==> t == keys[0] || t in keys[1..];
      (if Fits(keys[0], cons) then [keys[0]] else []) + FilterFitting(keys[1..], cons)
  }

  /** For a signature the range checks read its slot types. */
  lemma SignatureFits(t: string, cons: seq<Range>)
    requires IsSignature(t) && |cons| == 4
    ensures AllDigits(t)
    ensures Fits(t, cons) <==> forall i | 0 <= i < 4 :: cons[i].lo <= SlotsOf(t)[i] <= cons[i].hi
  {
    assert ParseDigit(t[0]) == Some(SlotsOf(t)[0]);
    assert ParseDigit(t[1]) == Some(SlotsOf(t)[1]);
    assert ParseDigit(t[2]) == Some(SlotsOf(t)[2]);
    assert ParseDigit(t[3]) == Some(SlotsOf(t)[3]);
  }
}

/** The keys under which a repository's sealed state is stored. */
module StoreKeys {

  datatype Key = ManifestKey | LegacyKey | SegmentAt(index: nat)

  function KeyString(k: Key): string
  {
    match k
    case ManifestKey => "seal.manifest"
    case LegacyKey => "repo.bundle"
    case SegmentAt(index) => SegmentKey(index)
  }

  function Digit(d: nat): char
    requires d < 10
  {
    "0123456789"[d]
  }

  function Decimal(n: nat): (r: string)
    ensures r != []
  {
    if n < 10 then [Digit(n)] else Decimal(n / 10) + [Digit(n % 10)]
  }

  function Zeros(n: nat): string
  {
    if n == 0 then [] else ['0'] + Zeros(n - 1)
  }

  /** bundle/00000000, bundle/00000001, ... */
  function SegmentKey(index: nat): string
  {
    var d := Decimal(index);
    "bundle/" + (if |d| < 8 then Zeros(8 - |d|) + d else d)
  }

  function DigitValue(c: char): nat
  {
    if '0' <= c <= '9' then (c - '0') as int else 0
  }

  function Value(s: string): nat
  {
    if s == [] then 0 else 10 * Value(s[..|s| - 1]) + DigitValue(s[|s| - 1])
  }

  lemma {:induction false} ValueOfDecimal(n: nat)
    ensures Value(Decimal(n)) == n
  {
    if n < 10 {
    } else {
      ValueOfDecimal(n / 10);
      assert Decimal(n)[..|Decimal(n)| - 1] == Decimal(n / 10);
    }
  }

  lemma {:induction false} ValueOfPadded(k: nat, s: string)
    ensures Value(Zeros(k) + s) == Value(s)
    decreases |s|, k
  {
    if s == [] {
      assert Zeros(k) + s == Zeros(k);
      ValueOfZeros(k);
    } else {
      var all := Zeros(k) + s;
      assert all[..|all| - 1] == Zeros(k) + s[..|s| - 1];
      ValueOfPadded(k, s[..|s| - 1]);
    }
  }

  lemma {:induction false} ValueOfZeros(k: nat)
    ensures Value(Zeros(k)) == 0
  {
    if k == 0 {
    } else {
      ZerosFront(k);
      ValueOfZeros(k - 1);
    }
  }

  lemma {:induction false} ZerosFront(k: nat)
    requires k > 0
    ensures Zeros(k) == Zeros(k - 1) + ['0']
  {
    if k <= 1 {
    } else {
      ZerosFront(k - 1);
    }
  }

  lemma SegmentKeyValue(i: nat)
    ensures |SegmentKey(i)| > 7 && SegmentKey(i)[0] == 'b' && Value(SegmentKey(i)[7..]) == i
  {
    var d := Decimal(i);
    ValueOfDecimal(i);
    if |d| < 8 {
      ValueOfPadded(8 - |d|, d);
      assert SegmentKey(i)[7..] == Zeros(8 - |d|) + d;
    } else {
      assert SegmentKey(i)[7..] == d;
    }
  }

  predicate AllDigits(s: string)
  {
    forall i :: 0 <= i < |s| ==> '0' <= s[i] <= '9'
  }

  lemma {:induction false} DecimalIsDigits(n: nat)
    ensures AllDigits(Decimal(n)) && (n > 0 ==> Decimal(n)[0] != '0')
  {
    if n < 10 {
    } else {
      DecimalIsDigits(n / 10);
    }
  }

  lemma {:induction false} ZerosAreZeros(k: nat)
    ensures |Zeros(k)| == k && forall i :: 0 <= i < k ==> Zeros(k)[i] == '0'
  {
    if k == 0 {
    } else {
      ZerosAreZeros(k - 1);
    }
  }

  /** A segment's key is its index in decimal after "bundle/", with at least eight digits and no
    * zero in front of more. */
  lemma SegmentKeyIs(i: nat)
    ensures var key := SegmentKey(i);
      |key| >= 15 && key[..7] == "bundle/" && AllDigits(key[7..]) && Value(key[7..]) == i &&
      (|key| > 15 ==> key[7] != '0')
  {
    var d, key := Decimal(i), SegmentKey(i);
    SegmentKeyValue(i);
    DecimalIsDigits(i);
    assert key[..7] == "bundle/";
    if |d| < 8 {
      ZerosAreZeros(8 - |d|);
      assert key[7..] == Zeros(8 - |d|) + d;
    } else {
      assert key[7..] == d && key[7] == d[0];
    }
  }

  /** Different keys are different strings, so the store is a map from keys. */
  lemma KeyStringInjective(j: Key, k: Key)
    requires KeyString(j) == KeyString(k)
    ensures j == k
  {
    if j.SegmentAt? { SegmentKeyValue(j.index); }
    if k.SegmentAt? { SegmentKeyValue(k.index); }
  }
}

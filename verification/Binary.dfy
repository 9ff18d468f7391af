/** int2bin, bin2int and binary_range of bindings/python/rad_util.py. */
module Binary {

  function Pow2(n: nat): (p: nat)
    ensures p > 0
  {
    if n == 0 then 1 else 2 * Pow2(n - 1)
  }

  predicate IsBinary(s: string) { forall i :: 0 <= i < |s| ==> s[i] == '0' || s[i] == '1' }

  function Bit(c: char): nat { if c == '1' then 1 else 0 }

  /** bin2int: int(s, 2) on a string of binary digits. */
  function Bin2Int(s: string): nat {
    if s == "" then 0 else 2 * Bin2Int(s[..|s| - 1]) + Bit(s[|s| - 1])
  }

  // ---------- int2bin ----------

  /** The digits of hex(i), most significant first. */
  function HexDigits(i: nat): (d: seq<nat>)
    ensures forall k :: 0 <= k < |d| ==> d[k] < 16
  {
    if i < 16 then [i] else HexDigits(i / 16) + [i % 16]
  }

  /** The table hex2bin. */
  function Hex2Bin(d: nat): string
    requires d < 16
  {
    ["0000", "0001", "0010", "0011", "0100", "0101", "0110", "0111",
     "1000", "1001", "1010", "1011", "1100", "1101", "1110", "1111"][d]
  }

  function Expand(digits: seq<nat>): string
    requires forall k :: 0 <= k < |digits| ==> digits[k] < 16
  {
    if digits == [] then "" else Expand(digits[..|digits| - 1]) + Hex2Bin(digits[|digits| - 1])
  }

  function Zeros(n: int): (s: string)
    ensures |s| == (if n < 0 then 0 else n) && forall i :: 0 <= i < |s| ==> s[i] == '0'
  {
    if n <= 0 then "" else ['0'] + Zeros(n - 1)
  }

  /** Where Python's slices s[:k] and s[k:] cut. */
  function SliceAt(s: string, k: int): (c: nat)
    ensures c <= |s|
  {
    if k >= 0 then (if k <= |s| then k else |s|)
    else if |s| + k >= 0 then |s| + k else 0
  }

  datatype BinResult = Bin(text: string) | ValueError | KeyError

  /** A negative number has no entry for the 'x' of its hex text. */
  function Int2Bin(i: int, n: int): BinResult {
    if i < 0 then KeyError
    else
      var full := Expand(HexDigits(i));
      var cut := SliceAt(full, -n);
      if '1' in full[..cut] then ValueError
      else Bin(Zeros(n - |full[cut..]|) + full[cut..])
  }

  // ---------- Values of binary strings ----------

  lemma AppendValue(a: string, b: string)
    ensures Bin2Int(a + b) == Bin2Int(a) * Pow2(|b|) + Bin2Int(b)
  {
    if b == "" {
      assert a + b == a && Bin2Int(b) == 0;
    } else {
      var front := b[..|b| - 1];
      assert (a + b)[..|a + b| - 1] == a + front;
      AppendValue(a, front);
      hide Bin2Int;
      UnfoldValue(b);
      UnfoldValue(a + b);
      DoubleProduct(Bin2Int(a), Pow2(|b| - 1));
    }
  }

  lemma UnfoldValue(s: string)
    requires s != ""
    ensures Bin2Int(s) == 2 * Bin2Int(s[..|s| - 1]) + Bit(s[|s| - 1])
  {
  }

  lemma DoubleProduct(x: int, y: int)
    ensures x * (2 * y) == 2 * (x * y)
  {
  }

  lemma ValueBound(s: string)
    ensures Bin2Int(s) < Pow2(|s|)
  {
  }

  lemma ValueZero(s: string)
    ensures Bin2Int(s) == 0 <==> '1' !in s
  {
    if s != "" {
      assert s == s[..|s| - 1] + [s[|s| - 1]];
      ValueZero(s[..|s| - 1]);
    }
  }

  /** Strings of the same length with the same value are equal. */
  lemma ValueInjective(s: string, t: string)
    requires IsBinary(s) && IsBinary(t) && |s| == |t| && Bin2Int(s) == Bin2Int(t)
    ensures s == t
  {
    if s != "" {
      ValueInjective(s[..|s| - 1], t[..|t| - 1]);
      assert s == s[..|s| - 1] + [s[|s| - 1]] && t == t[..|t| - 1] + [t[|t| - 1]];
    }
  }

  lemma NibbleValue(d: nat)
    requires d < 16
    ensures |Hex2Bin(d)| == 4 && IsBinary(Hex2Bin(d)) && Bin2Int(Hex2Bin(d)) == d
  {
    hide Bin2Int;
    FourBits(Hex2Bin(d));
  }

  lemma FourBits(s: string)
    requires |s| == 4
    ensures Bin2Int(s) == 8 * Bit(s[0]) + 4 * Bit(s[1]) + 2 * Bit(s[2]) + Bit(s[3])
  {
    assert s[..3][..2] == s[..2] && s[..2][..1] == s[..1] && s[..1][..0] == "";
    assert Bin2Int(s[..1]) == Bit(s[0]);
    assert Bin2Int(s[..2]) == 2 * Bin2Int(s[..1]) + Bit(s[1]);
    assert Bin2Int(s[..3]) == 2 * Bin2Int(s[..2]) + Bit(s[2]);
  }

  lemma HexValue(i: nat)
    ensures IsBinary(Expand(HexDigits(i))) && Bin2Int(Expand(HexDigits(i))) == i
  {
    hide Bin2Int, Hex2Bin;
    var d := HexDigits(i);
    var last := d[|d| - 1];
    NibbleValue(last);
    AppendValue(Expand(d[..|d| - 1]), Hex2Bin(last));
    assert Pow2(4) == 16;
    if i < 16 {
      assert d[..|d| - 1] == [];
      EmptyValue();
    } else {
      assert d[..|d| - 1] == HexDigits(i / 16);
      HexValue(i / 16);
    }
  }

  lemma EmptyValue()
    ensures Bin2Int("") == 0
  {
  }

  lemma Pow2Monotone(m: nat, n: nat)
    requires m <= n
    ensures Pow2(m) <= Pow2(n)
  {
    if m < n { Pow2Monotone(m, n - 1); }
  }

  lemma ZerosValue(n: int, s: string)
    ensures Bin2Int(Zeros(n) + s) == Bin2Int(s)
  {
    AppendValue(Zeros(n), s);
    ValueZero(Zeros(n));
  }

  /** For n >= 1: ValueError exactly when i needs more than n bits, and otherwise
      the n-digit binary string whose value is i. */
  lemma Int2BinExact(i: nat, n: int)
    requires n >= 1
    ensures Int2Bin(i, n).ValueError? <==> i >= Pow2(n)
    ensures i < Pow2(n) ==>
      Int2Bin(i, n).Bin? && |Int2Bin(i, n).text| == n && IsBinary(Int2Bin(i, n).text) && Bin2Int(Int2Bin(i, n).text) == i
  {
    hide Bin2Int, Expand, Pow2, HexDigits;
    var full := Expand(HexDigits(i));
    HexValue(i);
    var cut := SliceAt(full, -n);
    var high, low := full[..cut], full[cut..];
    assert full == high + low;
    HighAndLow(high, low);
    Pow2Monotone(|low|, n);
    ZerosValue(n - |low|, low);
  }

  /** For any width: a negative number raises a KeyError, width 0 never raises a
      ValueError, and a text that is returned has the number's value. */
  lemma Int2BinNeverWrong(i: int, n: int)
    ensures Int2Bin(i, n).KeyError? <==> i < 0
    ensures i >= 0 ==> Int2Bin(i, 0).Bin?
    ensures Int2Bin(i, n).Bin? ==> IsBinary(Int2Bin(i, n).text) && Bin2Int(Int2Bin(i, n).text) == i
  {
    hide Bin2Int, Expand, Pow2, HexDigits;
    if i >= 0 {
      var full := Expand(HexDigits(i));
      HexValue(i);
      var cut := SliceAt(full, -n);
      var high, low := full[..cut], full[cut..];
      assert full == high + low;
      HighAndLow(high, low);
      ZerosValue(n - |low|, low);
    }
  }

  /** Cutting off the high digits loses nothing exactly when they are all zero. */
  lemma HighAndLow(high: string, low: string)
    ensures if '1' in high then Bin2Int(high + low) >= Pow2(|low|)
            else Bin2Int(high + low) == Bin2Int(low) < Pow2(|low|)
  {
    hide Bin2Int, Pow2;
    AppendValue(high, low);
    ValueZero(high);
    ValueBound(low);
    HighBit(Bin2Int(high), Pow2(|low|));
  }

  lemma HighBit(h: nat, p: nat)
    ensures if h == 0 then h * p == 0 else h * p >= p
  {
  }

  /** int2bin and bin2int are inverse to each other. */
  lemma RoundTrip(s: string)
    requires s != "" && IsBinary(s)
    ensures Int2Bin(Bin2Int(s), |s|) == Bin(s)
  {
    hide Bin2Int, Int2Bin, Pow2;
    ValueBound(s);
    Int2BinExact(Bin2Int(s), |s|);
    ValueInjective(Int2Bin(Bin2Int(s), |s|).text, s);
  }

  // ---------- binary_range ----------

  function Reversed(s: string): (r: string)
    ensures |r| == |s| && forall i :: 0 <= i < |s| ==> r[i] == s[|s| - 1 - i]
  {
    seq(|s|, i requires 0 <= i < |s| => s[|s| - 1 - i])
  }

  /** The value of a string whose least significant digit comes first. */
  function LowFirst(v: string): nat { Bin2Int(Reversed(v)) }

  lemma DigitChange(v: string, i: nat, c: char)
    requires i < |v|
    ensures LowFirst(v[i := c]) + Bit(v[i]) * Pow2(i) == LowFirst(v) + Bit(c) * Pow2(i)
  {
    var r, j := Reversed(v), |v| - 1 - i;
    var head, tail := r[..j], r[j + 1..];
    assert |tail| == i;
    assert r == head + ([v[i]] + tail) && Reversed(v[i := c]) == head + ([c] + tail);
    OneDigit(head, v[i], tail);
    OneDigit(head, c, tail);
  }

  lemma OneDigit(head: string, c: char, tail: string)
    ensures Bin2Int(head + ([c] + tail)) == Bin2Int(head) * Pow2(|tail| + 1) + Bit(c) * Pow2(|tail|) + Bin2Int(tail)
  {
    AppendValue(head, [c] + tail);
    AppendValue([c], tail);
    assert Bin2Int([c]) == Bit(c) by { assert [c][..0] == ""; }
  }

  /** The inner loop: one ripple-carry increment. */
  method Increment(v: array<char>, toggle: array<int>)
    requires toggle.Length == v.Length + 1 && IsBinary(v[..]) && v.Length > 0
    requires toggle[0] == 1 && forall k :: 1 <= k <= v.Length ==> toggle[k] == 0
    modifies v, toggle
    ensures IsBinary(v[..]) && (toggle[v.Length] == 0 || toggle[v.Length] == 1)
    ensures LowFirst(v[..]) + toggle[v.Length] * Pow2(v.Length) == old(LowFirst(v[..])) + 1
  {
    hide Bin2Int, LowFirst, Pow2;
    var bits := v.Length;
    var i := 0;
    PowZero();
    while i < bits && toggle[i] == 1
      invariant 0 <= i <= bits && IsBinary(v[..])
      invariant toggle[i] == 0 || toggle[i] == 1
      invariant forall k :: i < k <= bits ==> toggle[k] == 0
      invariant LowFirst(v[..]) + toggle[i] * Pow2(i) == old(LowFirst(v[..])) + 1
    {
      ghost var before := v[..];
      PowStep(i);
      if v[i] == '0' {
        DigitChange(before, i, '1');
        v[i] := '1';
        toggle[i + 1] := 0;
        assert v[..] == before[i := '1'];
      } else {
        DigitChange(before, i, '0');
        v[i] := '0';
        toggle[i + 1] := 1;
        assert v[..] == before[i := '0'];
      }
      i := i + 1;
    }
  }

  lemma PowZero()
    ensures Pow2(0) == 1
  {
  }

  lemma PowStep(i: nat)
    ensures Pow2(i + 1) == 2 * Pow2(i)
  {
  }

  /** For at least one bit, the list of all the binary numbers of that width in
      order; for no bits at all the loop does not start. */
  method BinaryRange(bits: nat) returns (l: seq<string>)
    ensures |l| == if bits == 0 then 0 else Pow2(bits)
    ensures forall k :: 0 <= k < |l| ==> Int2Bin(k, bits) == Bin(l[k])
  {
    hide Bin2Int, Pow2, Int2Bin, LowFirst;
    l := [];
    var v := new char[bits](_ => '0');
    var toggle := new int[bits + 1](k => if k == 0 then 1 else 0);
    AllZero(v[..]);
    while toggle[bits] != 1
      invariant toggle.Length == bits + 1 && IsBinary(v[..]) && (toggle[bits] == 0 || toggle[bits] == 1)
      invariant LowFirst(v[..]) + (if bits > 0 then toggle[bits] * Pow2(bits) else 0) == |l|
      invariant if bits == 0 then toggle[bits] == 1 && l == [] else toggle[bits] == 1 ==> LowFirst(v[..]) == 0
      invariant forall k :: 0 <= k < |l| ==> Int2Bin(k, bits) == Bin(l[k])
      decreases if toggle[bits] == 1 then 0 else Pow2(bits) - LowFirst(v[..])
    {
      CountedSoFar(v[..]);
      l := l + [Reversed(v[..])];
      toggle := new int[bits + 1](k => if k == 0 then 1 else 0);
      Increment(v, toggle);
      CountedSoFar(v[..]);
    }
    CountedSoFar(v[..]);
  }

  lemma AllZero(v: string)
    requires forall i :: 0 <= i < |v| ==> v[i] == '0'
    ensures LowFirst(v) == 0
  {
    ValueZero(Reversed(v));
  }

  lemma CountedSoFar(v: string)
    requires IsBinary(v)
    ensures LowFirst(v) < Pow2(|v|)
    ensures v != "" ==> Int2Bin(LowFirst(v), |v|) == Bin(Reversed(v))
  {
    hide Bin2Int, Int2Bin;
    ValueBound(Reversed(v));
    if v != "" { RoundTrip(Reversed(v)); }
  }
}

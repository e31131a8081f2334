/**
 * Fixed-width binary digit strings, the representation the encoders
 * produce: `sign_extend(bin(n), w)[2:]` renders a natural number as
 * exactly `w` binary digits, and `" ".join(fields)` separates the fields
 * of an instruction word with single spaces.
 */
module Bits {
  import opened Wrappers

  function Pow2(w: nat): (p: nat)
    ensures p >= 1
  {
    if w == 0 then 1 else 2 * Pow2(w - 1)
  }

  predicate IsBinary(s: string) {
    forall i :: 0 <= i < |s| ==> s[i] == '0' || s[i] == '1'
  }

  /** `n` as exactly `w` binary digits, most significant first, zero-padded on the left. */
  function ToBinary(n: nat, w: nat): (s: string)
    requires n < Pow2(w)
    ensures |s| == w && IsBinary(s)
  {
    if w == 0 then ""
    else ToBinary(n / 2, w - 1) + [if n % 2 == 0 then '0' else '1']
  }

  /** The natural number a string of binary digits denotes (most significant first). */
  function FromBinary(s: string): nat {
    if s == [] then 0
    else 2 * FromBinary(s[..|s| - 1]) + (if s[|s| - 1] == '1' then 1 else 0)
  }

  /** The powers of two the instruction fields use. */
  lemma Pow2Values()
    ensures Pow2(5) == 32 && Pow2(6) == 64 && Pow2(15) == 32768 && Pow2(16) == 65536
    ensures Pow2(26) == 67108864
  {
    assert Pow2(5) == 32;
    assert Pow2(6) == 64;
    assert Pow2(10) == 1024;
    assert Pow2(15) == 32768;
    assert Pow2(16) == 65536;
    assert Pow2(20) == 1048576;
    assert Pow2(26) == 67108864;
  }

  /** The string of `w` zeros, the default value of every unused field. */
  function Zeros(w: nat): (s: string)
    ensures |s| == w
  {
    seq(w, _ => '0')
  }

  lemma {:induction false} FromBinaryBound(s: string)
    ensures FromBinary(s) < Pow2(|s|)
  {
    if s != [] {
      FromBinaryBound(s[..|s| - 1]);
    }
  }

  /** Rendering then reading back gives the number again. */
  lemma {:induction false} FromToBinary(n: nat, w: nat)
    requires n < Pow2(w)
    ensures FromBinary(ToBinary(n, w)) == n
  {
    if w > 0 {
      FromToBinary(n / 2, w - 1);
      var s := ToBinary(n, w);
      assert s[..|s| - 1] == ToBinary(n / 2, w - 1);
    }
  }

  /** Reading a digit string then rendering it at its own width gives the string again. */
  lemma {:induction false} ToFromBinary(s: string)
    requires IsBinary(s)
    ensures FromBinary(s) < Pow2(|s|) && ToBinary(FromBinary(s), |s|) == s
  {
    FromBinaryBound(s);
    if s != [] {
      var p, c := s[..|s| - 1], s[|s| - 1];
      ToFromBinary(p);
      var n := FromBinary(s);
      var b := if c == '1' then 1 else 0;
      assert n == 2 * FromBinary(p) + b;
      assert n / 2 == FromBinary(p) && n % 2 == b;
      assert [if n % 2 == 0 then '0' else '1'] == [c];
      assert s == p + [c];
    }
  }

  /** Zero renders as all zeros at any width. */
  lemma {:induction false} ZeroIsZeros(w: nat)
    ensures ToBinary(0, w) == Zeros(w)
  {
    if w > 0 {
      ZeroIsZeros(w - 1);
      assert Zeros(w) == Zeros(w - 1) + ['0'];
    }
  }

  /**
   * `v` as a `w`-bit two's-complement pattern, read as a natural number.
   * Extension: the source leaves negative immediates unwritten.
   */
  function TwosComplement(v: int, w: nat): (u: nat)
    requires w > 0 && -(Pow2(w - 1) as int) <= v < Pow2(w - 1)
    ensures u < Pow2(w)
    ensures v >= 0 ==> u == v
    ensures v < 0 ==> u >= Pow2(w - 1)
  {
    if v >= 0 then v else v + Pow2(w)
  }

  /** The signed value of a `w`-bit two's-complement pattern. */
  function Signed(u: nat, w: nat): int
    requires w > 0
  {
    if u < Pow2(w - 1) then u else u - Pow2(w)
  }

  lemma SignedTwosComplement(v: int, w: nat)
    requires w > 0 && -(Pow2(w - 1) as int) <= v < Pow2(w - 1)
    ensures Signed(TwosComplement(v, w), w) == v
  {
    assert Pow2(w) == 2 * Pow2(w - 1);
  }

  /* ---------- space-separated fields ---------- */

  /** `" ".join(parts)`. */
  function JoinFields(parts: seq<string>): string {
    if parts == [] then ""
    else if |parts| == 1 then parts[0]
    else parts[0] + " " + JoinFields(parts[1..])
  }

  function Sum(ws: seq<nat>): nat {
    if ws == [] then 0 else ws[0] + Sum(ws[1..])
  }

  /** Cut `s` into fields of the given widths separated by single spaces, or `None` if it does not have that shape. */
  function SplitFields(s: string, widths: seq<nat>): Option<seq<string>>
    decreases |widths|
  {
    if widths == [] then (if s == [] then Some([]) else None)
    else if |widths| == 1 then (if |s| == widths[0] then Some([s]) else None)
    else if |s| > widths[0] && s[widths[0]] == ' ' then
      match SplitFields(s[widths[0] + 1..], widths[1..])
      case None => None
      case Some(rest) => Some([s[..widths[0]]] + rest)
    else None
  }

  /** Joined fields of the stated widths are exactly as long as the widths plus one separator between each pair. */
  lemma {:induction false} JoinFieldsLength(parts: seq<string>, widths: seq<nat>)
    requires |parts| == |widths| > 0
    requires forall i :: 0 <= i < |parts| ==> |parts[i]| == widths[i]
    ensures |JoinFields(parts)| == Sum(widths) + |widths| - 1
  {
    if |parts| > 1 {
      JoinFieldsLength(parts[1..], widths[1..]);
    }
  }

  /** Where field `i` starts in fields of the given widths joined by single spaces. */
  function Offset(widths: seq<nat>, i: nat): nat
    requires i <= |widths|
  {
    if i == 0 then 0 else widths[0] + 1 + Offset(widths[1..], i - 1)
  }

  /** Field `i` of the joined string is exactly `parts[i]`. */
  lemma {:induction false} JoinFieldsSlice(parts: seq<string>, widths: seq<nat>, i: nat)
    requires |parts| == |widths|
    requires forall k :: 0 <= k < |parts| ==> |parts[k]| == widths[k]
    requires i < |parts|
    ensures Offset(widths, i) + widths[i] <= |JoinFields(parts)|
    ensures JoinFields(parts)[Offset(widths, i)..Offset(widths, i) + widths[i]] == parts[i]
  {
    JoinFieldsLength(parts, widths);
    if |parts| > 1 {
      var rest := JoinFields(parts[1..]);
      assert JoinFields(parts) == parts[0] + " " + rest;
      if i > 0 {
        JoinFieldsSlice(parts[1..], widths[1..], i - 1);
        var o := Offset(widths[1..], i - 1);
        assert JoinFields(parts)[widths[0] + 1 + o..widths[0] + 1 + o + widths[i]] == rest[o..o + widths[i]];
      }
    }
  }

  /** Splitting joined fields at the widths they were built with recovers them. */
  lemma {:induction false} SplitJoin(parts: seq<string>, widths: seq<nat>)
    requires |parts| == |widths|
    requires forall i :: 0 <= i < |parts| ==> |parts[i]| == widths[i]
    ensures SplitFields(JoinFields(parts), widths) == Some(parts)
  {
    if |parts| == 1 {
      assert parts == [parts[0]];
    } else if |parts| > 1 {
      var s := JoinFields(parts);
      SplitJoin(parts[1..], widths[1..]);
      assert s[widths[0] + 1..] == JoinFields(parts[1..]);
      assert s[..widths[0]] == parts[0];
      assert parts == [parts[0]] + parts[1..];
    }
  }
}

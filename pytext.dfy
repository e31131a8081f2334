/**
 * The Python string built-ins the assembler relies on, written out as
 * functions over `string` (Dafny's `seq<char>`): `str.split(c, 1)`,
 * `str.replace(c, "")`, `str.split()`, `str.strip()` and `int(str)`.
 */
module PyText {
  import opened Wrappers

  /** Python's whitespace set, as used by `str.split()` and `str.strip()`. */
  predicate IsSpace(c: char) {
    var n := c as int;
    (9 <= n <= 13) || (28 <= n <= 32) || n == 0x85 || n == 0xA0 || n == 0x1680
    || (0x2000 <= n <= 0x200A) || n == 0x2028 || n == 0x2029 || n == 0x202F
    || n == 0x205F || n == 0x3000
  }

  /** Position of the first `c` in `s`, or `|s|` when there is none. */
  function IndexOf(s: string, c: char): (k: nat)
    ensures k <= |s|
    ensures k < |s| ==> s[k] == c
    ensures c !in s[..k]
    ensures k == |s| <==> c !in s
  {
    if s == [] then 0
    else if s[0] == c then 0
    else
      assert s[1..][..IndexOf(s[1..], c)] == s[1..1 + IndexOf(s[1..], c)];
      assert s[..1 + IndexOf(s[1..], c)] == [s[0]] + s[1..][..IndexOf(s[1..], c)];
      1 + IndexOf(s[1..], c)
  }

  /** `s.split(c, 1)`: the whole string when `c` is absent, otherwise the parts before and after the first `c`. */
  function SplitOnce(s: string, c: char): (parts: seq<string>)
    ensures c !in s ==> parts == [s]
    ensures c in s ==> |parts| == 2 && parts[0] + [c] + parts[1] == s && c !in parts[0]
  {
    var k := IndexOf(s, c);
    if k == |s| then [s]
    else
      assert s[..k] + [c] + s[k + 1..] == s;
      [s[..k], s[k + 1..]]
  }

  /** `s.split(c, 1)[0]`: everything before the first `c`, or all of `s`. */
  function BeforeFirst(s: string, c: char): (r: string)
    ensures c !in r
    ensures r <= s
    ensures |r| < |s| ==> s[|r|] == c
  {
    SplitOnce(s, c)[0]
  }

  /** `s.replace(c, "")`. */
  function RemoveAll(s: string, c: char): (r: string)
    ensures c !in r
    ensures forall d :: d in r <==> d in s && d != c
    ensures c !in s ==> r == s
  {
    if s == [] then []
    else if s[0] == c then RemoveAll(s[1..], c)
    else [s[0]] + RemoveAll(s[1..], c)
  }

  /** The characters of `s` that are neither whitespace nor a comma, in order. */
  function Squeeze(s: string): string {
    if s == [] then []
    else if IsSpace(s[0]) || s[0] == ',' then Squeeze(s[1..])
    else [s[0]] + Squeeze(s[1..])
  }

  /** The characters of `s` that are not whitespace, in order. */
  function DropSpaces(s: string): string {
    if s == [] then []
    else if IsSpace(s[0]) then DropSpaces(s[1..])
    else [s[0]] + DropSpaces(s[1..])
  }

  function Concat(ts: seq<string>): string {
    if ts == [] then [] else ts[0] + Concat(ts[1..])
  }

  /** Length of the run of non-whitespace characters that starts `s`. */
  function WordLength(s: string): (n: nat)
    ensures n <= |s|
    ensures forall i :: 0 <= i < n ==> !IsSpace(s[i])
    ensures n < |s| ==> IsSpace(s[n])
  {
    if s == [] || IsSpace(s[0]) then 0 else 1 + WordLength(s[1..])
  }

  /** `s.split()`: the maximal runs of non-whitespace characters, in order. */
  function Words(s: string): seq<string>
    decreases |s|
  {
    if s == [] then []
    else if IsSpace(s[0]) then Words(s[1..])
    else
      var n := WordLength(s);
      [s[..n]] + Words(s[n..])
  }

  /** A string of whitespace only (possibly empty): what `str.split()` splits at. */
  predicate AllSpace(s: string) {
    forall i :: 0 <= i < |s| ==> IsSpace(s[i])
  }

  /** What `str.split()` returns pieces of: non-empty and free of whitespace. */
  predicate IsWord(t: string) {
    |t| > 0 && forall i :: 0 <= i < |t| ==> !IsSpace(t[i])
  }

  /** `gaps[0] + ws[0] + gaps[1] + ... + ws[n - 1] + gaps[n]`. */
  function Interleave(gaps: seq<string>, ws: seq<string>): string
    requires |gaps| == |ws| + 1
    decreases |ws|
  {
    if ws == [] then gaps[0] else gaps[0] + ws[0] + Interleave(gaps[1..], ws[1..])
  }

  /**
   * `s` is the words `ws` separated by the whitespace runs `gaps`: every
   * word is non-empty and whitespace-free, every gap is whitespace only,
   * and every gap between two words is non-empty. The words are then the
   * maximal whitespace-free runs of `s`.
   */
  predicate SeparatedBy(s: string, gaps: seq<string>, ws: seq<string>) {
    && |gaps| == |ws| + 1
    && s == Interleave(gaps, ws)
    && (forall i :: 0 <= i < |gaps| ==> AllSpace(gaps[i]))
    && (forall i :: 0 < i < |ws| ==> gaps[i] != [])
    && (forall i :: 0 <= i < |ws| ==> IsWord(ws[i]))
  }

  /** The whitespace runs around and between the words of `s`. */
  function Gaps(s: string): (gaps: seq<string>)
    ensures |gaps| > 0
    decreases |s|
  {
    if s == [] then [""]
    else if IsSpace(s[0]) then
      var rest := Gaps(s[1..]);
      [[s[0]] + rest[0]] + rest[1..]
    else
      [""] + Gaps(s[WordLength(s)..])
  }

  /** Number of whitespace characters at the front of `s`. */
  function LeadingSpaces(s: string): (n: nat)
    ensures n <= |s|
    ensures forall i :: 0 <= i < n ==> IsSpace(s[i])
    ensures n < |s| ==> !IsSpace(s[n])
  {
    if s == [] || !IsSpace(s[0]) then 0 else 1 + LeadingSpaces(s[1..])
  }

  /** Number of whitespace characters at the back of `s`. */
  function TrailingSpaces(s: string): (n: nat)
    ensures n <= |s|
    ensures forall i :: |s| - n <= i < |s| ==> IsSpace(s[i])
    ensures n < |s| ==> !IsSpace(s[|s| - 1 - n])
  {
    if s == [] || !IsSpace(s[|s| - 1]) then 0 else 1 + TrailingSpaces(s[..|s| - 1])
  }

  /** `s.strip()`: `s` without its leading and trailing whitespace. */
  function Strip(s: string): (r: string)
    ensures r == [] || (!IsSpace(r[0]) && !IsSpace(r[|r| - 1]))
    ensures exists i, j :: 0 <= i <= j <= |s| && r == s[i..j]
              && (forall k :: 0 <= k < i ==> IsSpace(s[k]))
              && (forall k :: j <= k < |s| ==> IsSpace(s[k]))
  {
    var i := LeadingSpaces(s);
    if i == |s| then
      assert s[i..i] == [];
      []
    else
      var j := |s| - TrailingSpaces(s);
      s[i..j]
  }

  /* ---------- int() ---------- */

  predicate IsDigit(c: char) { '0' <= c <= '9' }

  predicate AllDigits(s: string) { forall i :: 0 <= i < |s| ==> IsDigit(s[i]) }

  /** The value of a string of decimal digits, most significant first. */
  function DigitsValue(s: string): nat
    requires AllDigits(s)
  {
    if s == [] then 0
    else 10 * DigitsValue(s[..|s| - 1]) + (s[|s| - 1] as int - '0' as int)
  }

  /**
   * `int(s)` on a string: an optional `+` or `-` followed by one or more
   * decimal digits; `None` where Python raises `ValueError`.
   */
  function ParseInt(s: string): (r: Option<int>)
    ensures r.Some? <==> var body := if |s| > 0 && (s[0] == '+' || s[0] == '-') then s[1..] else s;
                         |body| > 0 && AllDigits(body)
  {
    if |s| > 0 && (s[0] == '+' || s[0] == '-') then
      var body := s[1..];
      if |body| > 0 && AllDigits(body) then
        var v: int := DigitsValue(body);
        Some(if s[0] == '-' then -v else v)
      else None
    else if |s| > 0 && AllDigits(s) then Some(DigitsValue(s))
    else None
  }

  /** Decimal rendering of a natural number, no leading zeros. */
  function NatToString(n: nat): (s: string)
    ensures |s| > 0 && AllDigits(s)
  {
    var d := [('0' as int + n % 10) as char];
    if n < 10 then d else NatToString(n / 10) + d
  }

  /** Decimal rendering of an integer, with a `-` for negative values, as Python's `str(int)`. */
  function IntToString(v: int): string {
    if v < 0 then "-" + NatToString(-v) else NatToString(v)
  }

  /* ---------- lemmas ---------- */

  lemma {:induction false} DigitsRoundTrip(n: nat)
    ensures DigitsValue(NatToString(n)) == n
  {
    var d := [('0' as int + n % 10) as char];
    if n >= 10 {
      DigitsRoundTrip(n / 10);
      var s := NatToString(n / 10) + d;
      assert s[..|s| - 1] == NatToString(n / 10);
    }
  }

  /** Leading zeros add nothing to the value of a digit string. */
  lemma {:induction false} LeadingZerosValue(z: string, d: string)
    requires forall i :: 0 <= i < |z| ==> z[i] == '0'
    requires AllDigits(d)
    ensures AllDigits(z + d) && DigitsValue(z + d) == DigitsValue(d)
    decreases |d|
  {
    var s := z + d;
    assert forall i :: 0 <= i < |s| ==> IsDigit(s[i]) by {
      forall i | 0 <= i < |s| ensures IsDigit(s[i]) {
        if i < |z| { assert s[i] == z[i]; } else { assert s[i] == d[i - |z|]; }
      }
    }
    if d == [] {
      assert s == z;
      ZerosValue(z);
    } else {
      var d' := d[..|d| - 1];
      LeadingZerosValue(z, d');
      assert s[..|s| - 1] == z + d';
      assert s[|s| - 1] == d[|d| - 1];
    }
  }

  /** A string of zeros denotes 0. */
  lemma {:induction false} ZerosValue(z: string)
    requires forall i :: 0 <= i < |z| ==> z[i] == '0'
    ensures AllDigits(z) && DigitsValue(z) == 0
  {
    if z != [] {
      ZerosValue(z[..|z| - 1]);
    }
  }

  /** `int()` ignores leading zeros: `"007"` and `"7"` give the same value. */
  lemma ParseIntLeadingZeros(z: string, d: string)
    requires forall i :: 0 <= i < |z| ==> z[i] == '0'
    requires |d| > 0 && AllDigits(d)
    ensures ParseInt(z + d) == Some(DigitsValue(d) as int)
  {
    LeadingZerosValue(z, d);
    ParseUnsigned(z + d);
  }

  /** A leading `+` changes nothing: `"+007"` gives the value of `"7"`. */
  lemma ParseIntPlus(z: string, d: string)
    requires forall i :: 0 <= i < |z| ==> z[i] == '0'
    requires |d| > 0 && AllDigits(d)
    ensures ParseInt("+" + (z + d)) == Some(DigitsValue(d) as int)
  {
    LeadingZerosValue(z, d);
    ParsePlus(z + d);
  }

  /** A leading `-` negates, whatever zeros follow it: `"-007"` gives -7. */
  lemma ParseIntMinus(z: string, d: string)
    requires forall i :: 0 <= i < |z| ==> z[i] == '0'
    requires |d| > 0 && AllDigits(d)
    ensures ParseInt("-" + (z + d)) == Some(-(DigitsValue(d) as int))
  {
    LeadingZerosValue(z, d);
    ParseNegativeOf(z + d, d);
  }

  /** A minus sign before digits worth as much as `d` gives minus the value of `d`. */
  lemma ParseNegativeOf(s: string, d: string)
    requires |s| > 0 && AllDigits(s) && AllDigits(d) && DigitsValue(s) == DigitsValue(d)
    ensures ParseInt("-" + s) == Some(-(DigitsValue(d) as int))
  {
    ParseNegative(s, DigitsValue(d));
  }

  lemma ParseNegative(s: string, v: nat)
    requires |s| > 0 && AllDigits(s) && DigitsValue(s) == v
    ensures ParseInt("-" + s) == Some(-(v as int))
  {
    var t := "-" + s;
    assert t[0] == '-' && t[1..] == s;
  }

  lemma ParseUnsigned(s: string)
    requires |s| > 0 && AllDigits(s)
    ensures ParseInt(s) == Some(DigitsValue(s) as int)
  {
    assert IsDigit(s[0]);
  }

  lemma ParsePlus(s: string)
    requires |s| > 0 && AllDigits(s)
    ensures ParseInt("+" + s) == Some(DigitsValue(s) as int)
  {
    var t := "+" + s;
    assert t[0] == '+' && t[1..] == s;
  }

  /** `int(str(v)) == v` for every integer `v`. */
  lemma ParseIntRoundTrip(v: int)
    ensures ParseInt(IntToString(v)) == Some(v)
  {
    if v < 0 {
      var s := IntToString(v);
      DigitsRoundTrip(-v);
      assert s == "-" + NatToString(-v);
      assert s[0] == '-';
      assert s[1..] == NatToString(-v);
    } else {
      var s := IntToString(v);
      DigitsRoundTrip(v);
      assert s == NatToString(v);
      assert s[0] != '+' && s[0] != '-' by { assert IsDigit(s[0]); }
    }
  }

  lemma {:induction false} ConcatAppend(a: seq<string>, b: seq<string>)
    ensures Concat(a + b) == Concat(a) + Concat(b)
  {
    if a == [] {
      assert a + b == b;
    } else {
      var ab := a + b;
      assert ab[0] == a[0] && ab[1..] == a[1..] + b;
      ConcatAppend(a[1..], b);
      calc {
        Concat(ab);
        ab[0] + Concat(ab[1..]);
        a[0] + (Concat(a[1..]) + Concat(b));
        (a[0] + Concat(a[1..])) + Concat(b);
      }
    }
  }

  lemma {:induction false} DropSpacesPrefix(s: string, n: nat)
    requires n <= |s|
    requires forall i :: 0 <= i < n ==> !IsSpace(s[i])
    ensures DropSpaces(s) == s[..n] + DropSpaces(s[n..])
  {
    if n > 0 {
      DropSpacesPrefix(s[1..], n - 1);
      assert s[1..][n - 1..] == s[n..];
      assert s[..n] == [s[0]] + s[1..][..n - 1];
    }
  }

  /**
   * What `str.split()` promises: every word is non-empty and free of
   * whitespace, and the words, concatenated, are `s` with its whitespace
   * deleted and nothing else changed.
   */
  lemma {:induction false} WordsShape(s: string)
    ensures forall t :: t in Words(s) ==> |t| > 0 && forall i :: 0 <= i < |t| ==> !IsSpace(t[i])
    ensures Concat(Words(s)) == DropSpaces(s)
    decreases |s|
  {
    if s == [] {
    } else if IsSpace(s[0]) {
      WordsShape(s[1..]);
    } else {
      var n := WordLength(s);
      WordsShape(s[n..]);
      DropSpacesPrefix(s, n);
      assert Words(s) == [s[..n]] + Words(s[n..]);
      ConcatAppend([s[..n]], Words(s[n..]));
      assert Concat([s[..n]]) == s[..n];
    }
  }

  /** Every character of a word of `s` is a character of `s`. */
  lemma {:induction false} WordsChars(s: string)
    ensures forall t, c :: t in Words(s) && c in t ==> c in s
    decreases |s|
  {
    if s == [] {
    } else if IsSpace(s[0]) {
      WordsChars(s[1..]);
    } else {
      var n := WordLength(s);
      WordsChars(s[n..]);
      forall t, c | t in Words(s) && c in t ensures c in s {
        if t == s[..n] {
        } else {
          assert t in Words(s[n..]);
          assert c in s[n..];
        }
      }
    }
  }

  /**
   * `str.split()` splits exactly at whitespace: `s` is its words separated
   * by whitespace runs, with at least one whitespace character between two
   * words.
   */
  lemma WordsSeparated(s: string)
    ensures SeparatedBy(s, Gaps(s), Words(s))
  {
    GapsCount(s);
    GapsInterleave(s);
    GapsAreSpace(s);
    InnerGapsNonEmpty(s);
    WordsShape(s);
    forall i | 0 <= i < |Words(s)| ensures IsWord(Words(s)[i]) {
      assert Words(s)[i] in Words(s);
    }
  }

  lemma {:induction false} GapsCount(s: string)
    ensures |Gaps(s)| == |Words(s)| + 1
    decreases |s|
  {
    if s == [] {
    } else if IsSpace(s[0]) {
      GapsCount(s[1..]);
    } else {
      GapsCount(s[WordLength(s)..]);
    }
  }

  lemma {:induction false} GapsInterleave(s: string)
    ensures |Gaps(s)| == |Words(s)| + 1
    ensures Interleave(Gaps(s), Words(s)) == s
    decreases |s|
  {
    GapsCount(s);
    if s == [] {
    } else if IsSpace(s[0]) {
      GapsInterleave(s[1..]);
      InterleaveFront([s[0]], Gaps(s[1..]), Words(s[1..]));
      assert s == [s[0]] + s[1..];
    } else {
      var n := WordLength(s);
      GapsInterleave(s[n..]);
      InterleaveWord(s[..n], Gaps(s[n..]), Words(s[n..]));
      assert s == s[..n] + s[n..];
    }
  }

  /** Text put in front of the first gap goes in front of the whole string. */
  lemma InterleaveFront(x: string, gaps: seq<string>, ws: seq<string>)
    requires |gaps| == |ws| + 1
    ensures Interleave([x + gaps[0]] + gaps[1..], ws) == x + Interleave(gaps, ws)
  {
    var front := [x + gaps[0]] + gaps[1..];
    assert front[0] == x + gaps[0] && front[1..] == gaps[1..];
  }

  /** A word with an empty gap before it goes in front of the whole string. */
  lemma InterleaveWord(w: string, gaps: seq<string>, ws: seq<string>)
    requires |gaps| == |ws| + 1
    ensures Interleave([""] + gaps, [w] + ws) == w + Interleave(gaps, ws)
  {
    var front, words := [""] + gaps, [w] + ws;
    assert front[1..] == gaps && words[1..] == ws;
    calc {
      Interleave(front, words);
      front[0] + words[0] + Interleave(front[1..], words[1..]);
      "" + w + Interleave(gaps, ws);
      { assert "" + w == w; }
      w + Interleave(gaps, ws);
    }
  }

  lemma {:induction false} GapsAreSpace(s: string)
    ensures forall i :: 0 <= i < |Gaps(s)| ==> AllSpace(Gaps(s)[i])
    decreases |s|
  {
    if s == [] {
    } else if IsSpace(s[0]) {
      var rest := Gaps(s[1..]);
      GapsAreSpace(s[1..]);
      assert AllSpace(rest[0]);
      forall i | 0 <= i < |Gaps(s)| ensures AllSpace(Gaps(s)[i]) {
        if i == 0 {
          assert Gaps(s)[0] == [s[0]] + rest[0];
        } else {
          assert Gaps(s)[i] == rest[i];
        }
      }
    } else {
      var rest := Gaps(s[WordLength(s)..]);
      GapsAreSpace(s[WordLength(s)..]);
      forall i | 0 < i < |Gaps(s)| ensures AllSpace(Gaps(s)[i]) {
        assert Gaps(s)[i] == rest[i - 1];
      }
    }
  }

  /** A string that starts with whitespace has a non-empty first gap. */
  lemma FirstGapNonEmpty(s: string)
    requires s != [] && IsSpace(s[0])
    ensures Gaps(s)[0] != []
  {
  }

  lemma {:induction false} InnerGapsNonEmpty(s: string)
    ensures |Gaps(s)| == |Words(s)| + 1
    ensures forall i :: 0 < i < |Words(s)| ==> Gaps(s)[i] != []
    decreases |s|
  {
    GapsCount(s);
    if s == [] {
    } else if IsSpace(s[0]) {
      var rest := Gaps(s[1..]);
      InnerGapsNonEmpty(s[1..]);
      forall i | 0 < i < |Words(s)| ensures Gaps(s)[i] != [] {
        assert Gaps(s)[i] == rest[i];
      }
    } else {
      var n := WordLength(s);
      var rest := Gaps(s[n..]);
      InnerGapsNonEmpty(s[n..]);
      assert Words(s) == [s[..n]] + Words(s[n..]);
      forall i | 0 < i < |Words(s)| ensures Gaps(s)[i] != [] {
        assert Gaps(s)[i] == rest[i - 1];
        if i == 1 {
          FirstGapNonEmpty(s[n..]);
        }
      }
    }
  }

  /** Leading whitespace does not change the words. */
  lemma {:induction false} WordsAfterSpaces(g: string, r: string)
    requires AllSpace(g)
    ensures Words(g + r) == Words(r)
    decreases |g|
  {
    if g != [] {
      assert (g + r)[1..] == g[1..] + r;
      WordsAfterSpaces(g[1..], r);
    } else {
      assert g + r == r;
    }
  }

  /** A word followed by nothing or by whitespace is the first word. */
  lemma WordsAfterWord(w: string, r: string)
    requires IsWord(w) && (r == [] || IsSpace(r[0]))
    ensures Words(w + r) == [w] + Words(r)
  {
    var s := w + r;
    var n := WordLength(s);
    assert forall i :: 0 <= i < |w| ==> s[i] == w[i];
    if |w| < |s| {
      assert s[|w|] == r[0];
    }
    assert n == |w|;
    assert s[..n] == w && s[n..] == r;
  }

  /**
   * The converse: words separated by whitespace runs are exactly what
   * `str.split()` returns, so `Words(s)` is the only such splitting of `s`.
   */
  lemma {:induction false} SeparatedWords(s: string, gaps: seq<string>, ws: seq<string>)
    requires SeparatedBy(s, gaps, ws)
    ensures Words(s) == ws
    decreases |ws|
  {
    if ws == [] {
      WordsAfterSpaces(gaps[0], "");
      assert s == gaps[0] + "";
    } else {
      var rest := Interleave(gaps[1..], ws[1..]);
      assert SeparatedBy(rest, gaps[1..], ws[1..]) by {
        forall i | 0 < i < |ws[1..]| ensures gaps[1..][i] != [] {
          assert gaps[1..][i] == gaps[i + 1];
        }
        forall i | 0 <= i < |ws[1..]| ensures IsWord(ws[1..][i]) {
          assert ws[1..][i] == ws[i + 1];
        }
        forall i | 0 <= i < |gaps[1..]| ensures AllSpace(gaps[1..][i]) {
          assert gaps[1..][i] == gaps[i + 1];
        }
      }
      SeparatedWords(rest, gaps[1..], ws[1..]);
      assert s == gaps[0] + (ws[0] + rest);
      WordsAfterSpaces(gaps[0], ws[0] + rest);
      if |ws| > 1 {
        assert gaps[1] != [] && AllSpace(gaps[1]);
        assert rest == gaps[1] + ws[1] + Interleave(gaps[2..], ws[2..]) by {
          assert gaps[1..][0] == gaps[1] && ws[1..][0] == ws[1];
          assert gaps[1..][1..] == gaps[2..] && ws[1..][1..] == ws[2..];
        }
        assert rest[0] == gaps[1][0];
      } else {
        assert rest == gaps[1];
      }
      assert IsWord(ws[0]);
      WordsAfterWord(ws[0], rest);
      assert ws == [ws[0]] + ws[1..];
    }
  }

  /** `replace(c, "")` works character by character: it distributes over concatenation and drops exactly `c`. */
  lemma {:induction false} RemoveAllAppend(a: string, b: string, c: char)
    ensures RemoveAll(a + b, c) == RemoveAll(a, c) + RemoveAll(b, c)
    decreases |a|
  {
    if a == [] {
      assert a + b == b;
    } else {
      assert (a + b)[0] == a[0] && (a + b)[1..] == a[1..] + b;
      RemoveAllAppend(a[1..], b, c);
    }
  }

  /** On one character `replace(c, "")` deletes it exactly when it is `c`. */
  lemma RemoveAllChar(x: char, c: char)
    ensures RemoveAll([x], c) == if x == c then [] else [x]
  {
    assert [x][1..] == [];
  }

  /** Deleting commas and then whitespace is the same as `Squeeze`. */
  lemma {:induction false} DropSpacesRemoveCommas(s: string)
    ensures DropSpaces(RemoveAll(s, ',')) == Squeeze(s)
  {
    if s != [] {
      DropSpacesRemoveCommas(s[1..]);
      if s[0] != ',' {
        assert RemoveAll(s, ',') == [s[0]] + RemoveAll(s[1..], ',');
        assert ([s[0]] + RemoveAll(s[1..], ','))[1..] == RemoveAll(s[1..], ',');
      }
    }
  }
}

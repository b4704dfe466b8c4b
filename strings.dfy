/** The Option datatype: a cell that pandas reports as missing is None. */
module Optional {
  datatype Option<+T> = None | Some(value: T)
}

/**
 * The pieces of Python's `str` that the ledger code relies on: `isspace`,
 * `strip()`, `replace(pat, '')`, `replace(',', '.')`, `split()` and decimal
 * digits.
 */
module Strings {

  /** Python's `str.isspace()` character set, which `strip()` and `split()` use. */
  predicate IsSpace(c: char) {
    var n := c as int;
    (0x09 <= n <= 0x0D) || (0x1C <= n <= 0x20) || n == 0x85 || n == 0xA0 || n == 0x1680
    || (0x2000 <= n <= 0x200A) || n == 0x2028 || n == 0x2029 || n == 0x202F
    || n == 0x205F || n == 0x3000
  }

  predicate NoSpace(s: string) {
    forall i :: 0 <= i < |s| ==> !IsSpace(s[i])
  }

  predicate AllSpace(s: string) {
    forall i :: 0 <= i < |s| ==> IsSpace(s[i])
  }

  // ---------------------------------------------------------------------------
  // strip()
  // ---------------------------------------------------------------------------

  /** Drops leading whitespace. */
  function TrimLeft(s: string): (r: string)
    ensures |r| <= |s|
    ensures r == [] || !IsSpace(r[0])
  {
    if s != [] && IsSpace(s[0]) then TrimLeft(s[1..]) else s
  }

  /** Drops trailing whitespace. */
  function TrimRight(s: string): (r: string)
    ensures |r| <= |s|
    ensures r == [] || (r[0] == s[0] && !IsSpace(r[|r| - 1]))
  {
    if s != [] && IsSpace(s[|s| - 1]) then TrimRight(s[..|s| - 1]) else s
  }

  /** Python's `s.strip()`: surrounding whitespace removed, nothing else touched. */
  function Strip(s: string): (r: string)
    ensures r == [] || (!IsSpace(r[0]) && !IsSpace(r[|r| - 1]))
  {
    TrimRight(TrimLeft(s))
  }

  /** `s` is `Strip(s)` framed by two runs of whitespace. */
  lemma StripDecompose(s: string) returns (lead: string, trail: string)
    ensures AllSpace(lead) && AllSpace(trail)
    ensures s == lead + Strip(s) + trail
  {
    var t := TrimLeft(s);
    var m := TrimRight(t);
    lead := TrimLeftSplit(s);
    trail := TrimRightSplit(t);
    assert lead + (m + trail) == lead + m + trail;
  }

  /** What `TrimLeft` drops is whitespace. */
  lemma {:induction false} TrimLeftSplit(s: string) returns (lead: string)
    ensures AllSpace(lead) && s == lead + TrimLeft(s)
    decreases |s|
  {
    if s != [] && IsSpace(s[0]) {
      var l := TrimLeftSplit(s[1..]);
      lead := [s[0]] + l;
      assert s == [s[0]] + s[1..];
      assert [s[0]] + (l + TrimLeft(s[1..])) == lead + TrimLeft(s[1..]);
      forall i | 1 <= i < |lead| ensures IsSpace(lead[i]) {
        assert lead[i] == l[i - 1];
      }
    } else {
      lead := [];
      assert s == [] + s;
    }
  }

  /** What `TrimRight` drops is whitespace. */
  lemma {:induction false} TrimRightSplit(t: string) returns (trail: string)
    ensures AllSpace(trail) && t == TrimRight(t) + trail
    decreases |t|
  {
    if t != [] && IsSpace(t[|t| - 1]) {
      var n := |t| - 1;
      var tr := TrimRightSplit(t[..n]);
      trail := tr + [t[n]];
      assert t == t[..n] + [t[n]];
      assert (TrimRight(t[..n]) + tr) + [t[n]] == TrimRight(t[..n]) + trail;
      forall i | 0 <= i < |tr| ensures IsSpace(trail[i]) {
        assert trail[i] == tr[i];
      }
    } else {
      trail := [];
      assert t == t + [];
    }
  }

  lemma {:induction false} TrimLeftSpacePrefix(lead: string, x: string)
    requires AllSpace(lead)
    ensures TrimLeft(lead + x) == TrimLeft(x)
    decreases |lead|
  {
    if lead != [] {
      assert (lead + x)[0] == lead[0] && IsSpace(lead[0]);
      assert (lead + x)[1..] == lead[1..] + x;
      TrimLeftSpacePrefix(lead[1..], x);
    } else {
      assert lead + x == x;
    }
  }

  lemma {:induction false} TrimLeftAppend(m: string, t: string)
    requires TrimLeft(m) != []
    ensures TrimLeft(m + t) == TrimLeft(m) + t
    decreases |m|
  {
    assert m != [] && (m + t)[0] == m[0];
    if IsSpace(m[0]) {
      assert TrimLeft(m) == TrimLeft(m[1..]);
      assert (m + t)[1..] == m[1..] + t;
      TrimLeftAppend(m[1..], t);
    } else {
      assert TrimLeft(m) == m;
    }
  }

  lemma {:induction false} TrimRightSpaceSuffix(x: string, trail: string)
    requires AllSpace(trail)
    ensures TrimRight(x + trail) == TrimRight(x)
    decreases |trail|
  {
    if trail != [] {
      var n := |trail|;
      assert (x + trail)[|x + trail| - 1] == trail[n - 1] && IsSpace(trail[n - 1]);
      assert (x + trail)[..|x + trail| - 1] == x + trail[..n - 1];
      TrimRightSpaceSuffix(x, trail[..n - 1]);
    } else {
      assert x + trail == x;
    }
  }

  /** Whitespace around a text never changes what `strip()` returns. */
  lemma StripFrame(lead: string, m: string, trail: string)
    requires AllSpace(lead) && AllSpace(trail)
    ensures Strip(lead + m + trail) == Strip(m)
  {
    assert lead + m + trail == lead + (m + trail);
    TrimLeftSpacePrefix(lead, m + trail);
    if TrimLeft(m) == [] {
      var l := TrimLeftSplit(m);
      assert m == l + [];
      assert AllSpace(m + trail);
      TrimLeftSpacePrefix(m + trail, []);
      assert m + trail + [] == m + trail;
    } else {
      TrimLeftAppend(m, trail);
      TrimRightSpaceSuffix(TrimLeft(m), trail);
    }
  }

  /** Text without surrounding whitespace is its own `strip()`. */
  lemma StripUnchanged(s: string)
    requires s == [] || (!IsSpace(s[0]) && !IsSpace(s[|s| - 1]))
    ensures Strip(s) == s
  {
  }

  /** `strip()` adds no character. */
  lemma StripChars(s: string)
    ensures forall c :: c in Strip(s) ==> c in s
  {
    var lead, trail := StripDecompose(s);
  }

  /** `strip()` removes whitespace only: every other character survives it. */
  lemma StripKeeps(s: string, c: char)
    requires c in s && !IsSpace(c)
    ensures c in Strip(s)
  {
    var lead, trail := StripDecompose(s);
  }

  // ---------------------------------------------------------------------------
  // replace(pat, '') and replace(from, to)
  // ---------------------------------------------------------------------------

  /**
   * Python's `s.replace(pat, '')`: one left-to-right scan that deletes every
   * non-overlapping occurrence of `pat`; text joined by a deletion is not
   * scanned again.
   */
  function DeleteAll(s: string, pat: string): (r: string)
    requires pat != []
    ensures |r| <= |s|
    ensures forall c :: c in r ==> c in s
    decreases |s|
  {
    if s == [] then []
    else if pat <= s then DeleteAll(s[|pat|..], pat)
    else [s[0]] + DeleteAll(s[1..], pat)
  }

  /** A text that does not contain the first character of `pat` is left alone. */
  lemma {:induction false} DeleteAbsent(s: string, pat: string)
    requires pat != [] && pat[0] !in s
    ensures DeleteAll(s, pat) == s
    decreases |s|
  {
    if s != [] {
      assert s[0] != pat[0];
      DeleteAbsent(s[1..], pat);
    }
  }

  /** No occurrence of `pat` can start in a prefix without its first character: only the rest is scanned. */
  lemma {:induction false} DeleteAfterAbsent(a: string, b: string, pat: string)
    requires pat != [] && pat[0] !in a
    ensures DeleteAll(a + b, pat) == a + DeleteAll(b, pat)
    decreases |a|
  {
    if a == [] {
      assert a + b == b;
    } else {
      assert (a + b)[0] == a[0] != pat[0];
      assert (a + b)[1..] == a[1..] + b;
      DeleteAfterAbsent(a[1..], b, pat);
      assert [a[0]] + (a[1..] + DeleteAll(b, pat)) == a + DeleteAll(b, pat);
    }
  }

  /** Deleting one character leaves none of it behind. */
  lemma {:induction false} DeleteCharGone(s: string, c: char)
    ensures c !in DeleteAll(s, [c])
    decreases |s|
  {
    if s != [] {
      DeleteCharGone(s[1..], c);
    }
  }

  /** Deleting one character keeps every other character. */
  lemma {:induction false} DeleteCharKeeps(s: string, c: char, d: char)
    requires d in s && d != c
    ensures d in DeleteAll(s, [c])
    decreases |s|
  {
    if s[0] != d {
      assert d in s[1..];
      DeleteCharKeeps(s[1..], c, d);
    }
  }

  /** Deleting one character works piece by piece. */
  lemma {:induction false} DeleteCharAppend(a: string, b: string, c: char)
    ensures DeleteAll(a + b, [c]) == DeleteAll(a, [c]) + DeleteAll(b, [c])
    decreases |a|
  {
    if a != [] {
      assert (a + b)[1..] == a[1..] + b;
      assert [c] <= a + b <==> [c] <= a;
      DeleteCharAppend(a[1..], b, c);
    } else {
      assert a + b == b;
    }
  }

  /** Python's `s.replace(from, to)` for single characters. */
  function ReplaceChar(s: string, from: char, to: char): (r: string)
    ensures |r| == |s|
    ensures forall i :: 0 <= i < |s| ==> r[i] == (if s[i] == from then to else s[i])
  {
    if s == [] then [] else [if s[0] == from then to else s[0]] + ReplaceChar(s[1..], from, to)
  }

  lemma ReplaceCharAppend(a: string, b: string, from: char, to: char)
    ensures ReplaceChar(a + b, from, to) == ReplaceChar(a, from, to) + ReplaceChar(b, from, to)
  {
    var l, r := ReplaceChar(a + b, from, to), ReplaceChar(a, from, to) + ReplaceChar(b, from, to);
    assert |l| == |r|;
    forall i | 0 <= i < |l| ensures l[i] == r[i] {
      if i < |a| { assert (a + b)[i] == a[i]; } else { assert (a + b)[i] == b[i - |a|]; }
    }
  }

  lemma ReplaceCharAbsent(s: string, from: char, to: char)
    requires from !in s
    ensures ReplaceChar(s, from, to) == s
  {
    var r := ReplaceChar(s, from, to);
    forall i | 0 <= i < |s| ensures r[i] == s[i] {
      assert s[i] != from;
    }
  }

  // ---------------------------------------------------------------------------
  // split()
  // ---------------------------------------------------------------------------

  /** The longest prefix of `t` that holds no whitespace. */
  function TakeWord(t: string): (w: string)
    ensures |w| <= |t| && w == t[..|w|]
    ensures NoSpace(w)
    ensures t != [] && !IsSpace(t[0]) ==> w != []
    ensures |w| < |t| ==> IsSpace(t[|w|])
  {
    if t == [] || IsSpace(t[0]) then [] else [t[0]] + TakeWord(t[1..])
  }

  /**
   * Python's `s.split()` with no argument: the maximal runs of non-whitespace,
   * in order; never an empty token.
   */
  function Split(s: string): (parts: seq<string>)
    ensures Tokens(parts)
    decreases |s|
  {
    var t := TrimLeft(s);
    if t == [] then []
    else
      var w := TakeWord(t);
      assert w != [];
      var rest := Split(t[|w|..]);
      TokensCons(w, rest);
      [w] + rest
  }

  /** Non-empty, whitespace-free tokens. */
  predicate Tokens(parts: seq<string>) {
    forall k :: 0 <= k < |parts| ==> parts[k] != [] && NoSpace(parts[k])
  }

  lemma TokensCons(w: string, rest: seq<string>)
    requires w != [] && NoSpace(w) && Tokens(rest)
    ensures Tokens([w] + rest)
  {
    forall k | 1 <= k < 1 + |rest| ensures ([w] + rest)[k] == rest[k - 1] {
    }
  }

  lemma {:induction false} TakeWordOf(w: string, tail: string)
    requires NoSpace(w)
    requires tail == [] || IsSpace(tail[0])
    ensures TakeWord(w + tail) == w
    decreases |w|
  {
    if w != [] {
      assert (w + tail)[1..] == w[1..] + tail;
      TakeWordOf(w[1..], tail);
    } else {
      assert w + tail == tail;
    }
  }

  /** A word followed by whitespace (or by nothing) is the first token. */
  lemma SplitWord(w: string, tail: string)
    requires w != [] && NoSpace(w)
    requires tail == [] || IsSpace(tail[0])
    ensures Split(w + tail) == [w] + Split(tail)
  {
    assert TrimLeft(w + tail) == w + tail;
    TakeWordOf(w, tail);
    assert (w + tail)[|w|..] == tail;
  }

  /** Leading whitespace never produces a token. */
  lemma SplitSpacePrefix(lead: string, x: string)
    requires AllSpace(lead)
    ensures Split(lead + x) == Split(x)
  {
    TrimLeftSpacePrefix(lead, x);
  }

  /** A non-empty text without whitespace is one token. */
  lemma SplitSingle(w: string)
    requires w != [] && NoSpace(w)
    ensures Split(w) == [w]
  {
    SplitWord(w, []);
    assert w + [] == w;
  }

  // ---------------------------------------------------------------------------
  // Decimal digits
  // ---------------------------------------------------------------------------

  predicate IsDigit(c: char) {
    '0' <= c <= '9'
  }

  predicate AllDigits(s: string) {
    forall i :: 0 <= i < |s| ==> IsDigit(s[i])
  }

  function DigitValue(c: char): (d: nat)
    requires IsDigit(c)
    ensures d < 10
  {
    c as int - '0' as int
  }

  function DigitChar(d: nat): (c: char)
    requires d < 10
    ensures IsDigit(c) && DigitValue(c) == d
  {
    ('0' as int + d) as char
  }

  /** The natural number a run of decimal digits denotes (most significant first). */
  function DigitsValue(s: string): nat
    requires AllDigits(s)
  {
    if s == [] then 0 else DigitsValue(s[..|s| - 1]) * 10 + DigitValue(s[|s| - 1])
  }

  /** The decimal rendering of `n`, without leading zeros; read back it gives `n`. */
  function NatDigits(n: nat): (r: string)
    ensures r != [] && AllDigits(r)
    ensures DigitsValue(r) == n
    ensures n < 10 <==> |r| == 1
    ensures 10 <= n < 100 <==> |r| == 2
  {
    if n < 10 then [DigitChar(n)]
    else
      var prefix := NatDigits(n / 10);
      var r := prefix + [DigitChar(n % 10)];
      assert r[..|r| - 1] == prefix;
      r
  }

  lemma NoSpaceAppend(a: string, b: string)
    requires NoSpace(a) && NoSpace(b)
    ensures NoSpace(a + b)
  {
    forall i | 0 <= i < |a + b| ensures !IsSpace((a + b)[i]) {
      if i >= |a| {
        assert (a + b)[i] == b[i - |a|];
      }
    }
  }

  lemma DigitsNoSpace(s: string)
    requires AllDigits(s)
    ensures NoSpace(s)
  {
  }
}

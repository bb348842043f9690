/** The pieces of Go's `strings` and `fmt` packages the refinery relies on,
    on strings of characters: `strings.Split` on one separator character,
    `strings.TrimSpace`, `strings.Contains`, `strings.TrimPrefix`, and the
    `%d` rendering of an integer. */
module Text {
  import opened Wrappers

  // ----- Searching -----

  /** The index of the first `c` in `s`, or `|s|` when there is none. */
  function IndexOf(s: string, c: char): (k: nat)
    ensures k <= |s|
    ensures c !in s[..k]
    ensures k < |s| ==> s[k] == c
  {
    if s == [] then 0
    else if s[0] == c then 0
    else
      var k := 1 + IndexOf(s[1..], c);
      assert s[..k] == [s[0]] + s[1..][..k - 1];
      k
  }

  /** `t` occurs in `s` as a contiguous piece (`strings.Contains`); the empty
      string occurs everywhere, and nothing longer than `s` occurs in it. */
  predicate Contains(s: string, t: string)
    ensures t == [] ==> Contains(s, t)
    ensures Contains(s, t) ==> |t| <= |s|
    decreases |s|
  {
    t <= s || (s != [] && Contains(s[1..], t))
  }

  /** Contains means: there is a position where `t` starts in `s`. */
  lemma {:induction false} ContainsAt(s: string, t: string, i: nat)
    requires i + |t| <= |s| && s[i..i + |t|] == t
    ensures Contains(s, t)
    decreases i
  {
    if i > 0 {
      assert s[1..][i - 1..i - 1 + |t|] == s[i..i + |t|];
      ContainsAt(s[1..], t, i - 1);
    }
  }

  /** A string without the first character of `t` does not contain `t`. */
  lemma {:induction false} NotContainsFirst(s: string, t: string)
    requires t != [] && t[0] !in s
    ensures !Contains(s, t)
    decreases |s|
  {
    if s != [] {
      assert s[0] != t[0];
      NotContainsFirst(s[1..], t);
    }
  }

  /** A piece of `s` that does not contain `t` after dropping a prefix still
      does not contain it. */
  lemma {:induction false} NotContainsSuffix(s: string, t: string, k: nat)
    requires k <= |s| && !Contains(s, t)
    ensures !Contains(s[k..], t)
  {
    if Contains(s[k..], t) {
      var i := ContainsWitness(s[k..], t);
      assert s[k + i..k + i + |t|] == s[k..][i..i + |t|];
      ContainsAt(s, t, k + i);
    }
  }

  /** The position where a contained `t` starts. */
  lemma {:induction false} ContainsWitness(s: string, t: string) returns (i: nat)
    requires Contains(s, t)
    ensures i + |t| <= |s| && s[i..i + |t|] == t
    decreases |s|
  {
    if t <= s {
      i := 0;
    } else {
      var j := ContainsWitness(s[1..], t);
      i := j + 1;
      assert s[i..i + |t|] == s[1..][j..j + |t|];
    }
  }

  /** A prefix lacking the first character of `t` neither creates nor hides
      an occurrence of `t`. */
  lemma {:induction false} ContainsAfterPrefix(p: string, s: string, t: string)
    requires t != [] && t[0] !in p
    ensures Contains(p + s, t) <==> Contains(s, t)
    decreases |p|
  {
    if p == [] {
      assert p + s == s;
    } else {
      var c := p + s;
      assert c[0] == p[0] && c[1..] == p[1..] + s;
      assert !(t <= c) by {
        assert t[0] != c[0];
      }
      ContainsAfterPrefix(p[1..], s, t);
    }
  }

  // ----- Prefixes -----

  /** `strings.TrimPrefix`: drop one leading `p` if `s` starts with it. */
  function TrimPrefix(s: string, p: string): (r: string)
    ensures p <= s ==> p + r == s
    ensures !(p <= s) ==> r == s
  {
    if p <= s then s[|p|..] else s
  }

  // ----- Whitespace -----

  /** Go's `unicode.IsSpace`: in the ASCII range exactly tab, newline,
      vertical tab, form feed, carriage return and space. */
  predicate IsSpace(c: char)
    ensures c < '\U{0080}' ==> (IsSpace(c) <==> c in "\t\n\U{000B}\U{000C}\r ")
  {
    c == '\t' || c == '\n' || c == '\U{000B}' || c == '\U{000C}' || c == '\r' || c == ' '
    || c == '\U{0085}' || c == '\U{00A0}' || c == '\U{1680}'
    || ('\U{2000}' <= c <= '\U{200A}')
    || c == '\U{2028}' || c == '\U{2029}' || c == '\U{202F}' || c == '\U{205F}' || c == '\U{3000}'
  }

  ghost predicate AllSpace(s: string)
  {
    forall i :: 0 <= i < |s| ==> IsSpace(s[i])
  }

  /** The number of whitespace characters at the start of `s`. */
  function LeadingSpaces(s: string): (k: nat)
    ensures k <= |s|
    ensures k < |s| ==> !IsSpace(s[k])
  {
    if s == [] || !IsSpace(s[0]) then 0 else 1 + LeadingSpaces(s[1..])
  }

  /** The index just past the last non-whitespace character of `s` (0 if none). */
  function TrailingStart(s: string): (k: nat)
    ensures k <= |s|
    ensures k > 0 ==> !IsSpace(s[k - 1])
  {
    if s == [] || !IsSpace(s[|s| - 1]) then |s| else TrailingStart(s[..|s| - 1])
  }

  /** Every character before LeadingSpaces is whitespace. */
  lemma {:induction false} LeadingSpacesAreSpaces(s: string, i: nat)
    requires i < LeadingSpaces(s)
    ensures IsSpace(s[i])
  {
    if i > 0 {
      LeadingSpacesAreSpaces(s[1..], i - 1);
    }
  }

  /** A slice of a slice is a slice of the original. */
  lemma SliceOfSlice(s: string, a: nat, e: nat, i: nat, j: nat)
    requires a <= e <= |s| && i <= j <= e - a
    ensures s[a..e][i..j] == s[a + i..a + j]
  {
    forall k | 0 <= k < j - i
      ensures s[a..e][i..j][k] == s[a + i..a + j][k]
    {
    }
  }

  /** LeadingSpaces stops at the first non-whitespace character. */
  lemma {:induction false} LeadingSpacesBound(s: string, i: nat)
    requires i < |s| && !IsSpace(s[i])
    ensures LeadingSpaces(s) <= i
  {
    if i > 0 && IsSpace(s[0]) {
      assert s[1..][i - 1] == s[i];
      LeadingSpacesBound(s[1..], i - 1);
    }
  }

  /** A non-whitespace character lies before TrailingStart. */
  lemma {:induction false} NonSpaceBeforeTrailingStart(s: string, i: nat)
    requires i < |s| && !IsSpace(s[i])
    ensures i < TrailingStart(s)
  {
    if IsSpace(s[|s| - 1]) {
      assert i < |s| - 1 && s[..|s| - 1][i] == s[i];
      NonSpaceBeforeTrailingStart(s[..|s| - 1], i);
    }
  }

  /** Leading whitespace padding adds its length to LeadingSpaces. */
  lemma {:induction false} LeadingSpacesSkip(w: string, x: string)
    requires AllSpace(w)
    ensures LeadingSpaces(w + x) == |w| + LeadingSpaces(x)
  {
    if w != [] {
      assert (w + x)[0] == w[0];
      assert (w + x)[1..] == w[1..] + x;
      LeadingSpacesSkip(w[1..], x);
    } else {
      assert w + x == x;
    }
  }

  /** Trailing whitespace padding does not move TrailingStart. */
  lemma {:induction false} TrailingStartSkip(x: string, w: string)
    requires AllSpace(w)
    ensures TrailingStart(x + w) == TrailingStart(x)
  {
    if w != [] {
      assert (x + w)[|x + w| - 1] == w[|w| - 1];
      assert (x + w)[..|x + w| - 1] == x + w[..|w| - 1];
      TrailingStartSkip(x, w[..|w| - 1]);
    } else {
      assert x + w == x;
    }
  }

  /** `strings.TrimSpace`: `s` without its leading and trailing whitespace. */
  function TrimSpace(s: string): (r: string)
    ensures r != [] ==> !IsSpace(r[0]) && !IsSpace(r[|r| - 1])
  {
    var a := LeadingSpaces(s);
    if a == |s| then []
    else
      NonSpaceBeforeTrailingStart(s, a);
      s[a..TrailingStart(s)]
  }

  /** Trimming only removes characters. */
  lemma TrimSpaceChars(s: string, c: char)
    requires c in TrimSpace(s)
    ensures c in s
  {
    var r := TrimSpace(s);
    var a := LeadingSpaces(s);
    var i :| 0 <= i < |r| && r[i] == c;
    assert s[a + i] == c;
  }

  /** TrimSpace is empty exactly for all-whitespace strings. */
  lemma TrimSpaceEmpty(s: string)
    ensures TrimSpace(s) == [] <==> AllSpace(s)
  {
    if LeadingSpaces(s) == |s| {
      forall i | 0 <= i < |s| ensures IsSpace(s[i]) {
        LeadingSpacesAreSpaces(s, i);
      }
    } else {
      assert !IsSpace(s[LeadingSpaces(s)]);
      NonSpaceBeforeTrailingStart(s, LeadingSpaces(s));
    }
  }

  /** TrimSpace gives back exactly the part between whitespace padding:
      whatever spaces surround a piece that neither starts nor ends with one. */
  lemma TrimSpacePadded(w1: string, t: string, w2: string)
    requires AllSpace(w1) && AllSpace(w2)
    requires t != [] ==> !IsSpace(t[0]) && !IsSpace(t[|t| - 1])
    ensures TrimSpace(w1 + t + w2) == t
  {
    var s := w1 + t + w2;
    assert s == w1 + (t + w2);
    LeadingSpacesSkip(w1, t + w2);
    if t == [] {
      assert t + w2 == w2 + [];
      LeadingSpacesSkip(w2, []);
    } else {
      assert (t + w2)[0] == t[0];
      assert s == (w1 + t) + w2;
      TrailingStartSkip(w1 + t, w2);
      assert (w1 + t)[|w1 + t| - 1] == t[|t| - 1];
      assert s[|w1|..|w1| + |t|] == t;
    }
  }

  /** Trimming twice is trimming once. */
  lemma TrimSpaceIdempotent(s: string)
    ensures TrimSpace(TrimSpace(s)) == TrimSpace(s)
  {
    var t := TrimSpace(s);
    assert t == [] + t + [];
    TrimSpacePadded([], t, []);
  }

  // ----- Splitting on a separator -----

  /** `strings.Split(s, [sep])`: the pieces between separators, always at
      least one (the empty string splits into one empty piece). */
  function Split(s: string, sep: char): (parts: seq<string>)
    ensures |parts| >= 1
    ensures forall i :: 0 <= i < |parts| ==> sep !in parts[i]
    decreases |s|
  {
    var k := IndexOf(s, sep);
    if k == |s| then [s] else [s[..k]] + Split(s[k + 1..], sep)
  }

  /** `strings.Join(parts, [sep])`. */
  function Join(parts: seq<string>, sep: char): string
    requires |parts| >= 1
  {
    if |parts| == 1 then parts[0] else parts[0] + [sep] + Join(parts[1..], sep)
  }

  /** Joining the pieces again gives back the input ... */
  lemma {:induction false} JoinSplit(s: string, sep: char)
    ensures Join(Split(s, sep), sep) == s
    decreases |s|
  {
    var k := IndexOf(s, sep);
    if k < |s| {
      var tail := Split(s[k + 1..], sep);
      var parts := [s[..k]] + tail;
      assert Split(s, sep) == parts;
      assert parts[1..] == tail;
      assert Join(parts, sep) == s[..k] + [sep] + Join(tail, sep);
      JoinSplit(s[k + 1..], sep);
      assert s == s[..k] + [sep] + s[k + 1..];
    }
  }

  /** A separator-free prefix is skipped by IndexOf. */
  lemma {:induction false} IndexOfSkip(p: string, x: string, c: char)
    requires c !in p
    ensures IndexOf(p + x, c) == |p| + IndexOf(x, c)
  {
    if p != [] {
      assert (p + x)[0] == p[0];
      assert (p + x)[1..] == p[1..] + x;
      IndexOfSkip(p[1..], x, c);
    } else {
      assert p + x == x;
    }
  }

  /** A separator-free string splits into itself. */
  lemma SplitWhole(p: string, sep: char)
    requires sep !in p
    ensures Split(p, sep) == [p]
  {
    IndexOfSkip(p, [], sep);
    assert p + [] == p;
  }

  /** A separator-free piece followed by the separator is split off first. */
  lemma SplitStep(p: string, rest: string, sep: char)
    requires sep !in p
    ensures Split(p + [sep] + rest, sep) == [p] + Split(rest, sep)
  {
    var s := p + [sep] + rest;
    var tail := [sep] + rest;
    assert s == p + tail;
    IndexOfSkip(p, tail, sep);
    assert IndexOf(s, sep) == |p|;
    assert s[..|p|] == p;
    assert s[|p| + 1..] == rest;
  }

  /** ... and splitting a join of separator-free pieces gives back the pieces. */
  lemma {:induction false} SplitJoin(parts: seq<string>, sep: char)
    requires |parts| >= 1
    requires forall i :: 0 <= i < |parts| ==> sep !in parts[i]
    ensures Split(Join(parts, sep), sep) == parts
    decreases |parts|
  {
    if |parts| == 1 {
      SplitWhole(parts[0], sep);
    } else {
      SplitStep(parts[0], Join(parts[1..], sep), sep);
      SplitJoin(parts[1..], sep);
      assert parts == [parts[0]] + parts[1..];
    }
  }

  // ----- Decimal rendering (`%d`) -----

  function DigitChar(d: nat): (c: char)
    requires d < 10
    ensures '0' <= c <= '9' && c as int - '0' as int == d
  {
    (d + '0' as int) as char
  }

  predicate IsDigits(s: string)
  {
    forall i :: 0 <= i < |s| ==> '0' <= s[i] <= '9'
  }

  /** The decimal numeral of `n`, most significant digit first. */
  function NatToDecimal(n: nat): string
    decreases n
  {
    if n < 10 then [DigitChar(n)] else NatToDecimal(n / 10) + [DigitChar(n % 10)]
  }

  /** The numeral is a non-empty string of digits without leading zeros. */
  lemma {:induction false} NatToDecimalDigits(n: nat)
    ensures |NatToDecimal(n)| >= 1 && IsDigits(NatToDecimal(n))
    ensures NatToDecimal(n)[0] == '0' ==> n == 0
    decreases n
  {
    if n >= 10 {
      NatToDecimalDigits(n / 10);
      var s := NatToDecimal(n);
      assert s[0] == NatToDecimal(n / 10)[0];
    }
  }

  /** The value a string of digits denotes, most significant digit first. */
  function DigitsValue(s: string): int
  {
    if s == [] then 0
    else DigitsValue(s[..|s| - 1]) * 10 + (s[|s| - 1] as int - '0' as int)
  }

  /** `%d` of an integer: a minus sign for negative values, then the numeral. */
  function IntToDecimal(i: int): (r: string)
    ensures |r| >= 1
    ensures r[0] == '-' <==> i < 0
  {
    var n := if i < 0 then -i else i;
    NatToDecimalDigits(n);
    if i < 0 then "-" + NatToDecimal(n) else NatToDecimal(n)
  }

  /** Reading back an optionally signed numeral. */
  function ParseDecimal(s: string): Option<int>
  {
    if |s| >= 2 && s[0] == '-' && IsDigits(s[1..]) then Some(-DigitsValue(s[1..]))
    else if |s| >= 1 && IsDigits(s) then Some(DigitsValue(s))
    else None
  }

  lemma {:induction false} NatToDecimalValue(n: nat)
    ensures DigitsValue(NatToDecimal(n)) == n
    decreases n
  {
    if n >= 10 {
      NatToDecimalValue(n / 10);
      var s := NatToDecimal(n);
      assert s[..|s| - 1] == NatToDecimal(n / 10);
    }
  }

  /** The rendering is read back as the same integer, so it loses nothing. */
  lemma IntToDecimalRoundTrip(i: int)
    ensures ParseDecimal(IntToDecimal(i)) == Some(i)
  {
    var s := IntToDecimal(i);
    if i < 0 {
      var n := NatToDecimal(-i);
      assert |s| >= 2 && s[0] == '-' && s[1..] == n by {
        NatToDecimalDigits(-i);
        assert s == "-" + n;
      }
      assert IsDigits(s[1..]) by {
        NatToDecimalDigits(-i);
      }
      assert DigitsValue(s[1..]) == -i by {
        NatToDecimalValue(-i);
      }
    } else {
      assert s == NatToDecimal(i);
      assert |s| >= 1 && IsDigits(s) && s[0] != '-' by {
        NatToDecimalDigits(i);
        assert '0' <= s[0] <= '9';
      }
      assert DigitsValue(s) == i by {
        NatToDecimalValue(i);
      }
    }
  }
}

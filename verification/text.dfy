/** String operations the recording code relies on, stated with the
    semantics of the JavaScript built-ins it calls: `String.prototype.split`
    with a one-character separator, `Array.prototype.join`, `startsWith`,
    substring search, number-to-text conversion in template literals, and
    splitting on runs of whitespace (`split(/\s+/)` after `trim()`). */
module Text {
  import opened Wrappers

  // ---------------------------------------------------------------------
  // Split and join on a single separator character
  // ---------------------------------------------------------------------

  /** `xs.join(sep)`: the pieces with one separator between neighbours. */
  function Join(xs: seq<string>, sep: char): string
  {
    if |xs| == 0 then ""
    else if |xs| == 1 then xs[0]
    else xs[0] + [sep] + Join(xs[1..], sep)
  }

  /** `s.split(sep)`: the maximal separator-free pieces. Like JavaScript it
      always yields at least one piece (`"".split("/")` is `[""]`). */
  function Split(s: string, sep: char): (r: seq<string>)
    ensures |r| >= 1
    ensures forall i :: 0 <= i < |r| ==> sep !in r[i]
    decreases |s|
  {
    if |s| == 0 then [""]
    else if s[0] == sep then [""] + Split(s[1..], sep)
    else
      var rest := Split(s[1..], sep);
      [[s[0]] + rest[0]] + rest[1..]
  }

  /** Joining the pieces back gives the original string. */
  lemma {:induction false} JoinSplit(s: string, sep: char)
    ensures Join(Split(s, sep), sep) == s
    decreases |s|
  {
    if |s| > 0 {
      JoinSplit(s[1..], sep);
      var rest := Split(s[1..], sep);
      if s[0] == sep {
        JoinEmptyHead(rest, sep);
        assert s == [sep] + s[1..];
      } else {
        JoinMergeHead(s[0], rest, sep);
        assert s == [s[0]] + s[1..];
      }
    }
  }

  /** An empty first piece leaves only its separator. */
  lemma JoinEmptyHead(rest: seq<string>, sep: char)
    requires |rest| >= 1
    ensures Join([""] + rest, sep) == [sep] + Join(rest, sep)
  {
    assert ([""] + rest)[1..] == rest;
  }

  /** A character glued to the front of the first piece is the first
      character of the joined text. */
  lemma JoinMergeHead(c: char, rest: seq<string>, sep: char)
    requires |rest| >= 1
    ensures Join([[c] + rest[0]] + rest[1..], sep) == [c] + Join(rest, sep)
  {
    var r := [[c] + rest[0]] + rest[1..];
    if |rest| > 1 {
      assert r[1..] == rest[1..];
      assert Join(r, sep) == [c] + rest[0] + [sep] + Join(rest[1..], sep);
    }
  }

  lemma {:induction false} SplitSingle(a: string, sep: char)
    requires sep !in a
    ensures Split(a, sep) == [a]
    decreases |a|
  {
    if |a| > 0 {
      SplitSingle(a[1..], sep);
      assert [a[0]] + a[1..] == a;
    }
  }

  lemma {:induction false} SplitCons(a: string, sep: char, rest: string)
    requires sep !in a
    ensures Split(a + [sep] + rest, sep) == [a] + Split(rest, sep)
    decreases |a|
  {
    if |a| == 0 {
      assert (a + [sep] + rest)[1..] == rest;
    } else {
      assert (a + [sep] + rest)[1..] == a[1..] + [sep] + rest;
      SplitCons(a[1..], sep, rest);
      assert [a[0]] + a[1..] == a;
    }
  }

  /** Splitting undoes joining whenever no piece contains the separator and
      there is at least one piece. */
  lemma {:induction false} SplitJoin(xs: seq<string>, sep: char)
    requires |xs| >= 1
    requires forall i :: 0 <= i < |xs| ==> sep !in xs[i]
    ensures Split(Join(xs, sep), sep) == xs
    decreases |xs|
  {
    if |xs| == 1 {
      SplitSingle(xs[0], sep);
    } else {
      SplitCons(xs[0], sep, Join(xs[1..], sep));
      SplitJoin(xs[1..], sep);
      assert [xs[0]] + xs[1..] == xs;
    }
  }

  /** Splitting at a separator splits the texts on either side of it
      independently. */
  lemma {:induction false} SplitAppend(a: string, sep: char, b: string)
    ensures Split(a + [sep] + b, sep) == Split(a, sep) + Split(b, sep)
    decreases |a|
  {
    if |a| == 0 {
      assert (a + [sep] + b)[1..] == b;
    } else {
      SplitAppend(a[1..], sep, b);
      SplitAppendStep(a, sep, b);
    }
  }

  /** One step of `SplitAppend`: from the tail of `a` to all of it. */
  lemma SplitAppendStep(a: string, sep: char, b: string)
    requires |a| > 0
    requires Split(a[1..] + [sep] + b, sep) == Split(a[1..], sep) + Split(b, sep)
    ensures Split(a + [sep] + b, sep) == Split(a, sep) + Split(b, sep)
  {
    if a[0] == sep {
      SplitAppendSepStep(a, sep, b);
    } else {
      SplitAppendCharStep(a, sep, b);
    }
  }

  lemma SplitAppendSepStep(a: string, sep: char, b: string)
    requires |a| > 0 && a[0] == sep
    requires Split(a[1..] + [sep] + b, sep) == Split(a[1..], sep) + Split(b, sep)
    ensures Split(a + [sep] + b, sep) == Split(a, sep) + Split(b, sep)
  {
    SplitSepHead(a, sep, b);
    ConsAppend("", Split(a[1..], sep), Split(b, sep),
               Split(a + [sep] + b, sep), Split(a, sep));
  }

  lemma SplitAppendCharStep(a: string, sep: char, b: string)
    requires |a| > 0 && a[0] != sep
    requires Split(a[1..] + [sep] + b, sep) == Split(a[1..], sep) + Split(b, sep)
    ensures Split(a + [sep] + b, sep) == Split(a, sep) + Split(b, sep)
  {
    SplitCharHead(a, sep, b);
    MergeFirst([a[0]], Split(a[1..], sep), Split(b, sep),
               Split(a + [sep] + b, sep), Split(a, sep));
  }

  /** Putting a piece in front distributes over appending more pieces. */
  lemma ConsAppend(h: string, rest: seq<string>, more: seq<string>, whole: seq<string>, head: seq<string>)
    requires whole == [h] + (rest + more)
    requires head == [h] + rest
    ensures whole == head + more
  {
  }

  /** Extending the first piece of a list distributes over appending more
      pieces. */
  lemma MergeFirst(h: string, rest: seq<string>, more: seq<string>, whole: seq<string>, head: seq<string>)
    requires |rest| >= 1
    requires whole == [h + (rest + more)[0]] + (rest + more)[1..]
    requires head == [h + rest[0]] + rest[1..]
    ensures whole == head + more
  {
    assert (rest + more)[0] == rest[0];
    assert (rest + more)[1..] == rest[1..] + more;
  }

  lemma SplitSepHead(a: string, sep: char, b: string)
    requires |a| > 0 && a[0] == sep
    ensures Split(a, sep) == [""] + Split(a[1..], sep)
    ensures Split(a + [sep] + b, sep) == [""] + Split(a[1..] + [sep] + b, sep)
  {
    assert (a + [sep] + b)[0] == sep && (a + [sep] + b)[1..] == a[1..] + [sep] + b;
  }

  lemma SplitCharHead(a: string, sep: char, b: string)
    requires |a| > 0 && a[0] != sep
    ensures Split(a, sep) == [[a[0]] + Split(a[1..], sep)[0]] + Split(a[1..], sep)[1..]
    ensures var r := Split(a[1..] + [sep] + b, sep);
            Split(a + [sep] + b, sep) == [[a[0]] + r[0]] + r[1..]
  {
    assert (a + [sep] + b)[0] == a[0] && (a + [sep] + b)[1..] == a[1..] + [sep] + b;
  }

  // ---------------------------------------------------------------------
  // Prefixes and substrings
  // ---------------------------------------------------------------------

  /** `s.startsWith(p)`. */
  predicate StartsWith(s: string, p: string)
  {
    |p| <= |s| && s[..|p|] == p
  }

  /** `pat` occurs in `s` starting at index `k`. */
  predicate OccursAt(s: string, pat: string, k: int)
  {
    0 <= k && k + |pat| <= |s| && s[k..k + |pat|] == pat
  }

  /** `s.includes(pat)`. */
  predicate Contains(s: string, pat: string)
  {
    exists k :: 0 <= k <= |s| && OccursAt(s, pat, k)
  }

  /** `s.indexOf(pat, from)`: the first occurrence at or after `from`. */
  function IndexFrom(s: string, pat: string, from: nat): (r: Option<nat>)
    ensures r.Some? ==> from <= r.value && OccursAt(s, pat, r.value)
    ensures r.Some? ==> forall k :: from <= k < r.value ==> !OccursAt(s, pat, k)
    ensures r.None? ==> forall k :: from <= k ==> !OccursAt(s, pat, k)
    decreases |s| + 1 - from
  {
    if from + |pat| > |s| then None
    else if s[from..from + |pat|] == pat then Some(from)
    else IndexFrom(s, pat, from + 1)
  }

  /** `s.indexOf(pat)`, with -1 rendered as `None`. */
  function IndexOf(s: string, pat: string): (r: Option<nat>)
    ensures r.None? <==> !Contains(s, pat)
    ensures r.Some? ==> OccursAt(s, pat, r.value)
    ensures r.Some? ==> forall k :: 0 <= k < r.value ==> !OccursAt(s, pat, k)
  {
    IndexFrom(s, pat, 0)
  }

  // ---------------------------------------------------------------------
  // Integers as decimal text
  // ---------------------------------------------------------------------

  predicate IsDigit(c: char)
  {
    '0' <= c <= '9'
  }

  predicate AllDigits(s: string)
  {
    forall i :: 0 <= i < |s| ==> IsDigit(s[i])
  }

  function DigitChar(d: nat): (c: char)
    requires d < 10
    ensures IsDigit(c)
  {
    "0123456789"[d]
  }

  function DigitValue(c: char): (d: nat)
    requires IsDigit(c)
    ensures d < 10
  {
    (c as int - '0' as int) as nat
  }

  lemma DigitRoundTrip(d: nat)
    requires d < 10
    ensures DigitValue(DigitChar(d)) == d
  {
  }

  /** The decimal rendering of a non-negative number (no leading zeros). */
  function NatToString(n: nat): (s: string)
    ensures |s| >= 1 && AllDigits(s)
  {
    if n < 10 then [DigitChar(n)]
    else NatToString(n / 10) + [DigitChar(n % 10)]
  }

  /** The value of a non-empty string of decimal digits. */
  function ParseNat(s: string): nat
    requires |s| >= 1 && AllDigits(s)
    decreases |s|
  {
    if |s| == 1 then DigitValue(s[0])
    else ParseNat(s[..|s| - 1]) * 10 + DigitValue(s[|s| - 1])
  }

  lemma {:induction false} ParseNatToString(n: nat)
    ensures ParseNat(NatToString(n)) == n
  {
    DigitRoundTrip(n % 10);
    if n >= 10 {
      var s := NatToString(n);
      assert s[..|s| - 1] == NatToString(n / 10);
      ParseNatToString(n / 10);
    }
  }

  /** A number as a template literal renders it: an optional minus sign
      followed by the digits of its magnitude. */
  function IntToString(i: int): (s: string)
    ensures |s| >= 1
    ensures forall k :: 0 <= k < |s| ==> IsDigit(s[k]) || s[k] == '-'
  {
    if i < 0 then "-" + NatToString(-i) else NatToString(i)
  }

  /** Reads back an optionally signed decimal number; `None` for any other
      text. */
  function ParseInt(s: string): (r: Option<int>)
    ensures r.Some? && r.value < 0 ==> |s| >= 2 && s[0] == '-'
  {
    if |s| >= 2 && s[0] == '-' && AllDigits(s[1..]) then Some(-(ParseNat(s[1..]) as int))
    else if |s| >= 1 && AllDigits(s) then Some(ParseNat(s))
    else None
  }

  lemma ParseIntToString(i: int)
    ensures ParseInt(IntToString(i)) == Some(i)
  {
    if i < 0 {
      ParseNegative(-i);
    } else {
      ParseNonNegative(i);
    }
  }

  lemma ParseNegative(n: nat)
    requires n > 0
    ensures ParseInt("-" + NatToString(n)) == Some(-(n as int))
  {
    var t := NatToString(n);
    var s := "-" + t;
    assert s[0] == '-' && s[1..] == t;
    ParseNatToString(n);
  }

  lemma ParseNonNegative(n: nat)
    ensures ParseInt(NatToString(n)) == Some(n)
  {
    var s := NatToString(n);
    assert IsDigit(s[0]);
    ParseNatToString(n);
  }

  // ---------------------------------------------------------------------
  // Whitespace-separated words
  // ---------------------------------------------------------------------

  /** A character matched by the regular-expression class `\s`: space and
      the controls tab through carriage return below 0x80, and the Unicode
      spaces, line and paragraph separators and the byte-order mark above. */
  predicate IsSpace(c: char)
  {
    if c < '\U{0080}' then c == ' ' || ('\t' <= c <= '\r')
    else c in {'\U{00A0}', '\U{1680}', '\U{2000}', '\U{2001}', '\U{2002}', '\U{2003}',
               '\U{2004}', '\U{2005}', '\U{2006}', '\U{2007}', '\U{2008}', '\U{2009}',
               '\U{200A}', '\U{2028}', '\U{2029}', '\U{202F}', '\U{205F}', '\U{3000}',
               '\U{FEFF}'}
  }

  predicate NoSpace(s: string)
  {
    forall i :: 0 <= i < |s| ==> !IsSpace(s[i])
  }

  /** The longest space-free prefix of `s`. */
  function Token(s: string): (t: string)
    ensures |t| <= |s| && t == s[..|t|] && NoSpace(t)
    ensures |t| < |s| ==> IsSpace(s[|t|])
    ensures |s| > 0 && !IsSpace(s[0]) ==> |t| > 0
  {
    if |s| == 0 || IsSpace(s[0]) then []
    else [s[0]] + Token(s[1..])
  }

  /** The maximal runs of non-space characters, in order: what
      `s.trim().split(/\s+/)` yields for any `s` holding at least one
      non-space character. */
  function Words(s: string): (r: seq<string>)
    ensures forall i :: 0 <= i < |r| ==> |r[i]| > 0 && NoSpace(r[i])
    decreases |s|
  {
    if |s| == 0 then []
    else if IsSpace(s[0]) then Words(s[1..])
    else
      var t := Token(s);
      [t] + Words(s[|t|..])
  }

  lemma {:induction false} TokenBeforeSpace(a: string, c: char, b: string)
    requires IsSpace(c)
    ensures Token(a + [c] + b) == Token(a)
    decreases |a|
  {
    if |a| > 0 {
      assert (a + [c] + b)[1..] == a[1..] + [c] + b;
      TokenBeforeSpace(a[1..], c, b);
    }
  }

  lemma {:induction false} WordsOfWord(a: string)
    requires |a| > 0 && NoSpace(a)
    ensures Words(a) == [a]
    decreases |a|
  {
    if |a| > 1 {
      assert NoSpace(a[1..]);
      WordsOfWord(a[1..]);
    }
    assert Token(a) == a by {
      TokenOfNoSpace(a);
    }
    assert a[|a|..] == [];
  }

  lemma {:induction false} TokenOfNoSpace(a: string)
    requires NoSpace(a)
    ensures Token(a) == a
    decreases |a|
  {
    if |a| > 0 {
      assert NoSpace(a[1..]);
      TokenOfNoSpace(a[1..]);
    }
  }

  lemma {:induction false} WordsOfSpaceJoin(a: string, c: char, b: string)
    requires IsSpace(c)
    ensures Words(a + [c] + b) == Words(a) + Words(b)
    decreases |a|
  {
    var s := a + [c] + b;
    if |a| == 0 {
      assert s[1..] == b;
    } else if IsSpace(a[0]) {
      assert s[1..] == a[1..] + [c] + b;
      WordsOfSpaceJoin(a[1..], c, b);
    } else {
      var t := Token(a);
      TokenBeforeSpace(a, c, b);
      assert s[|t|..] == a[|t|..] + [c] + b;
      WordsOfSpaceJoin(a[|t|..], c, b);
    }
  }

  /** The words of every string of a list, in list order. */
  function AllWords(parts: seq<string>): seq<string>
  {
    if |parts| == 0 then [] else Words(parts[0]) + AllWords(parts[1..])
  }

  /** The words of a space-joined list are the words of its parts, so an
      empty part contributes nothing and a part holding spaces contributes
      several words. */
  lemma {:induction false} WordsOfJoin(parts: seq<string>)
    ensures Words(Join(parts, ' ')) == AllWords(parts)
    decreases |parts|
  {
    if |parts| == 1 {
      assert parts[1..] == [];
    } else if |parts| > 1 {
      WordsOfSpaceJoin(parts[0], ' ', Join(parts[1..], ' '));
      WordsOfJoin(parts[1..]);
    }
  }
}

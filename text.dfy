/**
 * The Python string built-ins the bibliography code relies on, stated on
 * `seq<char>`: `str.replace`, `str.split(sep)`, `str.split(sep, 1)`,
 * `str.split()`, `str.strip()`, `sep.join`, `str.count`, `str.lower`,
 * `str.isalpha` and `str(int)`.
 */
module Text {
  import opened Results

  /** Python's `str.isspace` for a single character. */
  predicate IsSpace(c: char)
  {
    ('\U{0009}' <= c <= '\U{000D}') || ('\U{001C}' <= c <= '\U{001F}') || c == ' '
    || c == '\U{0085}' || c == '\U{00A0}' || c == '\U{1680}'
    || ('\U{2000}' <= c <= '\U{200A}') || c == '\U{2028}' || c == '\U{2029}'
    || c == '\U{202F}' || c == '\U{205F}' || c == '\U{3000}'
  }

  predicate NoSpace(s: string)
  {
    forall i :: 0 <= i < |s| ==> !IsSpace(s[i])
  }

  // ---------------------------------------------------------------------------
  // str.strip()

  function StripLeft(s: string): (r: string)
    ensures |r| <= |s| && r == s[|s| - |r|..]
    ensures forall i :: 0 <= i < |s| - |r| ==> IsSpace(s[i])
    ensures r == [] || !IsSpace(r[0])
    decreases |s|
  {
    if s != [] && IsSpace(s[0]) then StripLeft(s[1..]) else s
  }

  function StripRight(s: string): (r: string)
    ensures |r| <= |s| && r == s[..|r|]
    ensures forall i :: |r| <= i < |s| ==> IsSpace(s[i])
    ensures r == [] || !IsSpace(r[|r| - 1])
    decreases |s|
  {
    if s != [] && IsSpace(s[|s| - 1]) then StripRight(s[..|s| - 1]) else s
  }

  /** `s.strip()`: drop leading and trailing whitespace. */
  function Strip(s: string): (r: string)
    ensures r == [] || (!IsSpace(r[0]) && !IsSpace(r[|r| - 1]))
  {
    StripRight(StripLeft(s))
  }

  /** No whitespace at either end. */
  predicate Trimmed(s: string)
  {
    s == [] || (!IsSpace(s[0]) && !IsSpace(s[|s| - 1]))
  }

  /** A string without surrounding whitespace is its own strip. */
  lemma StripTrimmed(s: string)
    requires Trimmed(s)
    ensures Strip(s) == s
  {
  }

  // ---------------------------------------------------------------------------
  // str.split(sep, 1)

  function FirstIndex(s: string, c: char): (k: nat)
    requires c in s
    ensures k < |s| && s[k] == c && c !in s[..k]
  {
    if s[0] == c then 0 else 1 + FirstIndex(s[1..], c)
  }

  /**
   * `s.split(c, 1)` for a one-character separator: `None` stands for the
   * one-element result (no separator), `Some((head, tail))` for the two parts.
   */
  function SplitFirst(s: string, c: char): (r: Option<(string, string)>)
    ensures r.None? <==> c !in s
    ensures r.Some? ==> s == r.value.0 + [c] + r.value.1 && c !in r.value.0
  {
    if c in s then
      var k := FirstIndex(s, c);
      assert s == s[..k] + [c] + s[k + 1..];
      Some((s[..k], s[k + 1..]))
    else None
  }

  /** A separator with none before it is the first one. */
  lemma {:induction false} FirstIndexIs(s: string, c: char, j: nat)
    requires j < |s| && s[j] == c && c !in s[..j]
    ensures FirstIndex(s, c) == j
    decreases j
  {
    if j > 0 {
      assert s[..j] == [s[0]] + s[1..][..j - 1];
      FirstIndexIs(s[1..], c, j - 1);
    }
  }

  /** The split happens at the first separator, whatever follows it. */
  lemma SplitFirstAt(head: string, tail: string, c: char)
    requires c !in head
    ensures SplitFirst(head + [c] + tail, c) == Some((head, tail))
  {
    var s := head + [c] + tail;
    assert s[..|head|] == head;
    FirstIndexIs(s, c, |head|);
    assert s[|head| + 1..] == tail;
  }

  // ---------------------------------------------------------------------------
  // str.split(sep) and sep.join(parts)

  /** `s.split(sep)`: never empty; `"".split(sep) == [""]`. */
  function Split(s: string, sep: char): (parts: seq<string>)
    ensures |parts| >= 1
    decreases |s|
  {
    if s == [] then [""]
    else if s[0] == sep then [""] + Split(s[1..], sep)
    else
      var rest := Split(s[1..], sep);
      [[s[0]] + rest[0]] + rest[1..]
  }

  /** `sep.join(parts)`. */
  function Join(parts: seq<string>, sep: char): string
  {
    if |parts| == 0 then ""
    else if |parts| == 1 then parts[0]
    else parts[0] + [sep] + Join(parts[1..], sep)
  }

  /** Splitting and joining on the same separator gives the string back. */
  lemma {:induction false} JoinSplit(s: string, sep: char)
    ensures Join(Split(s, sep), sep) == s
    decreases |s|
  {
    if s == [] {
    } else if s[0] == sep {
      JoinSplit(s[1..], sep);
      assert s == [sep] + s[1..];
    } else {
      JoinSplit(s[1..], sep);
      var rest := Split(s[1..], sep);
      if |rest| == 1 {
        assert s == [s[0]] + s[1..];
      } else {
        assert Join(rest, sep) == rest[0] + [sep] + Join(rest[1..], sep);
        assert s == [s[0]] + s[1..];
      }
    }
  }

  /** No part of a split contains the separator. */
  lemma {:induction false} SplitPartsFree(s: string, sep: char)
    ensures forall k :: 0 <= k < |Split(s, sep)| ==> sep !in Split(s, sep)[k]
    decreases |s|
  {
    if s != [] {
      SplitPartsFree(s[1..], sep);
    }
  }

  /** A string without the separator splits into itself alone. */
  lemma {:induction false} SplitWithoutSeparator(s: string, sep: char)
    requires sep !in s
    ensures Split(s, sep) == [s]
    decreases |s|
  {
    if s != [] {
      SplitWithoutSeparator(s[1..], sep);
      assert s == [s[0]] + s[1..];
    }
  }

  /** Splitting at one occurrence of the separator splits the parts list there. */
  lemma {:induction false} SplitAround(a: string, b: string, sep: char)
    ensures Split(a + [sep] + b, sep) == Split(a, sep) + Split(b, sep)
    decreases |a|
  {
    var s := a + [sep] + b;
    if a == [] {
      assert s == [sep] + b;
      assert s[1..] == b;
    } else {
      assert s[1..] == a[1..] + [sep] + b;
      SplitAround(a[1..], b, sep);
      if a[0] == sep {
      } else {
        var left := Split(a[1..], sep);
        assert (left + Split(b, sep))[0] == left[0];
        assert (left + Split(b, sep))[1..] == left[1..] + Split(b, sep);
      }
    }
  }

  /** Joining a concatenation of two non-empty part lists. */
  lemma {:induction false} JoinAppend(p: seq<string>, q: seq<string>, sep: char)
    requires |p| >= 1 && |q| >= 1
    ensures Join(p + q, sep) == Join(p, sep) + [sep] + Join(q, sep)
    decreases |p|
  {
    if |p| == 1 {
      assert (p + q)[1..] == q;
    } else {
      assert (p + q)[1..] == p[1..] + q;
      JoinAppend(p[1..], q, sep);
    }
  }

  /**
   * The proper prefixes `sep.join(parts[:k])` of a split are exactly the
   * prefixes of `s` that end right before an occurrence of the separator.
   */
  lemma SeparatorPrefixes(s: string, sep: char)
    ensures (set k | 1 <= k < |Split(s, sep)| :: Join(Split(s, sep)[..k], sep))
         == (set j | 0 <= j < |s| && s[j] == sep :: s[..j])
  {
    var parts := Split(s, sep);
    var left := set k | 1 <= k < |parts| :: Join(parts[..k], sep);
    var right := set j | 0 <= j < |s| && s[j] == sep :: s[..j];
    forall x | x in left ensures x in right {
      var k :| 1 <= k < |parts| && x == Join(parts[..k], sep);
      var j := JoinedIsCut(s, sep, k);
    }
    forall x | x in right ensures x in left {
      var j :| 0 <= j < |s| && s[j] == sep && x == s[..j];
      var k := CutIsJoined(s, sep, j);
    }
  }

  /** The first k parts, joined again, end just before a separator of `s`. */
  lemma JoinedIsCut(s: string, sep: char, k: nat) returns (j: nat)
    requires 1 <= k < |Split(s, sep)|
    ensures j < |s| && s[j] == sep && s[..j] == Join(Split(s, sep)[..k], sep)
  {
    var parts := Split(s, sep);
    var x := Join(parts[..k], sep);
    assert parts == parts[..k] + parts[k..];
    JoinAppend(parts[..k], parts[k..], sep);
    JoinSplit(s, sep);
    j := |x|;
    assert s == x + [sep] + Join(parts[k..], sep);
  }

  /** The text before a separator of `s` is the first parts joined again. */
  lemma CutIsJoined(s: string, sep: char, j: nat) returns (k: nat)
    requires j < |s| && s[j] == sep
    ensures 1 <= k < |Split(s, sep)| && Join(Split(s, sep)[..k], sep) == s[..j]
  {
    var parts := Split(s, sep);
    assert s == s[..j] + [sep] + s[j + 1..];
    SplitAround(s[..j], s[j + 1..], sep);
    k := |Split(s[..j], sep)|;
    assert parts[..k] == Split(s[..j], sep);
    JoinSplit(s[..j], sep);
  }

  // ---------------------------------------------------------------------------
  // str.split() with no argument

  function WordLength(s: string): (n: nat)
    ensures n <= |s|
    ensures forall i :: 0 <= i < n ==> !IsSpace(s[i])
    ensures n < |s| ==> IsSpace(s[n])
  {
    if s == [] || IsSpace(s[0]) then 0 else 1 + WordLength(s[1..])
  }

  /** `s.split()`: the maximal runs of non-whitespace, in order. */
  function Words(s: string): (ws: seq<string>)
    ensures forall k :: 0 <= k < |ws| ==> ws[k] != [] && NoSpace(ws[k])
    ensures ws == [] <==> forall i :: 0 <= i < |s| ==> IsSpace(s[i])
    decreases |s|
  {
    if s == [] then []
    else if IsSpace(s[0]) then Words(s[1..])
    else
      var n := WordLength(s);
      [s[..n]] + Words(s[n..])
  }

  /** A word followed by nothing or by whitespace is read up to its end. */
  lemma {:induction false} WordLengthOf(u: string, rest: string)
    requires NoSpace(u)
    requires rest == [] || IsSpace(rest[0])
    ensures WordLength(u + rest) == |u|
    decreases |u|
  {
    if u == [] {
      assert u + rest == rest;
    } else {
      assert (u + rest)[1..] == u[1..] + rest;
      WordLengthOf(u[1..], rest);
    }
  }

  /** A leading word ended by whitespace or by the end is the first of `split()`. */
  lemma WordsCons(u: string, rest: string)
    requires u != [] && NoSpace(u)
    requires rest == [] || IsSpace(rest[0])
    ensures Words(u + rest) == [u] + Words(rest)
  {
    WordLengthOf(u, rest);
    assert (u + rest)[..|u|] == u;
    assert (u + rest)[|u|..] == rest;
  }

  /** Leading whitespace does not change `split()`. */
  lemma {:induction false} WordsSkipSpace(sp: string, rest: string)
    requires forall i :: 0 <= i < |sp| ==> IsSpace(sp[i])
    ensures Words(sp + rest) == Words(rest)
    decreases |sp|
  {
    if sp == [] {
      assert sp + rest == rest;
    } else {
      assert (sp + rest)[1..] == sp[1..] + rest;
      WordsSkipSpace(sp[1..], rest);
    }
  }

  /** `" ".join(ws).split() == ws` for non-empty words without whitespace. */
  lemma {:induction false} WordsJoin(ws: seq<string>)
    requires forall k :: 0 <= k < |ws| ==> ws[k] != [] && NoSpace(ws[k])
    ensures Words(Join(ws, ' ')) == ws
    decreases |ws|
  {
    if |ws| == 1 {
      WordsCons(ws[0], []);
      assert ws[0] + [] == ws[0];
    } else if |ws| > 1 {
      var rest := Join(ws[1..], ' ');
      WordsJoin(ws[1..]);
      WordsSkipSpace([' '], rest);
      WordsCons(ws[0], [' '] + rest);
      assert ws[0] + [' '] + rest == ws[0] + ([' '] + rest);
      assert [ws[0]] + ws[1..] == ws;
    }
  }

  /** The first and last characters of `" ".join(ws)` come from the first and last words. */
  lemma {:induction false} JoinEnds(ws: seq<string>)
    requires |ws| >= 1 && forall k :: 0 <= k < |ws| ==> ws[k] != []
    ensures var j := Join(ws, ' '); j != [] && j[0] == ws[0][0] && j[|j| - 1] == ws[|ws| - 1][|ws[|ws| - 1]| - 1]
    decreases |ws|
  {
    if |ws| > 1 {
      JoinEnds(ws[1..]);
    }
  }

  /** `" ".join(ws)` of non-empty words without whitespace is its own strip. */
  lemma JoinTrimmed(ws: seq<string>)
    requires forall k :: 0 <= k < |ws| ==> ws[k] != [] && NoSpace(ws[k])
    ensures Strip(Join(ws, ' ')) == Join(ws, ' ')
  {
    JoinIsTrimmed(ws);
    StripTrimmed(Join(ws, ' '));
  }

  lemma JoinIsTrimmed(ws: seq<string>)
    requires forall k :: 0 <= k < |ws| ==> ws[k] != [] && NoSpace(ws[k])
    ensures Trimmed(Join(ws, ' '))
  {
    if |ws| >= 1 {
      JoinEnds(ws);
      assert NoSpace(ws[0]) && NoSpace(ws[|ws| - 1]);
    }
  }

  // ---------------------------------------------------------------------------
  // str.replace(pat, rep)

  predicate OccursAt(s: string, p: string, i: int)
  {
    0 <= i && i + |p| <= |s| && s[i..i + |p|] == p
  }

  predicate Contains(s: string, p: string)
  {
    exists i | 0 <= i <= |s| :: OccursAt(s, p, i)
  }

  /** `s.replace(pat, rep)`: left-to-right, non-overlapping replacement of every occurrence. */
  function ReplaceAll(s: string, pat: string, rep: string): string
    requires |pat| > 0
    decreases |s|
  {
    if |s| < |pat| then s
    else if s[..|pat|] == pat then rep + ReplaceAll(s[|pat|..], pat, rep)
    else [s[0]] + ReplaceAll(s[1..], pat, rep)
  }

  /** Replacing a string that does not occur changes nothing. */
  lemma {:induction false} ReplaceAbsent(s: string, pat: string, rep: string)
    requires |pat| > 0 && !Contains(s, pat)
    ensures ReplaceAll(s, pat, rep) == s
    decreases |s|
  {
    if |s| >= |pat| {
      assert !OccursAt(s, pat, 0);
      if Contains(s[1..], pat) {
        var i :| 0 <= i <= |s[1..]| && OccursAt(s[1..], pat, i);
        assert s[1..][i..i + |pat|] == s[i + 1..i + 1 + |pat|];
        assert OccursAt(s, pat, i + 1);
      }
      ReplaceAbsent(s[1..], pat, rep);
    }
  }

  /** A one-character pattern occurs exactly where the character does. */
  lemma ContainsChar(s: string, c: char)
    ensures Contains(s, [c]) <==> c in s
  {
    if c in s {
      var i :| 0 <= i < |s| && s[i] == c;
      assert s[i..i + 1] == [c];
      assert OccursAt(s, [c], i);
    }
    if Contains(s, [c]) {
      var i :| 0 <= i <= |s| && OccursAt(s, [c], i);
      assert s[i..i + 1][0] == s[i];
    }
  }

  /** Every character of a replacement result comes from the input or from `rep`. */
  lemma {:induction false} ReplaceChars(s: string, pat: string, rep: string, c: char)
    requires |pat| > 0 && c in ReplaceAll(s, pat, rep)
    ensures c in s || c in rep
    decreases |s|
  {
    if |s| >= |pat| {
      if s[..|pat|] == pat {
        if c !in rep {
          ReplaceChars(s[|pat|..], pat, rep, c);
          assert c in s[|pat|..];
        }
      } else if c != s[0] {
        ReplaceChars(s[1..], pat, rep, c);
      }
    }
  }

  /** Replacing a single character by text that lacks it removes that character. */
  lemma {:induction false} ReplaceRemovesChar(s: string, c: char, rep: string)
    requires c !in rep
    ensures c !in ReplaceAll(s, [c], rep)
    decreases |s|
  {
    if |s| >= 1 {
      ReplaceRemovesChar(s[1..], c, rep);
    }
  }

  /** A shared prefix in which no occurrence of `pat` starts is copied unchanged. */
  lemma {:induction false} ReplaceSkipsPrefix(a: string, b: string, pat: string, rep: string)
    requires |pat| > 0
    requires forall i :: 0 <= i < |a| ==> !OccursAt(a + b, pat, i)
    ensures ReplaceAll(a + b, pat, rep) == a + ReplaceAll(b, pat, rep)
    decreases |a|
  {
    if a != [] {
      var s := a + b;
      assert !OccursAt(s, pat, 0);
      assert s[1..] == a[1..] + b;
      forall i | 0 <= i < |a[1..]| ensures !OccursAt(a[1..] + b, pat, i) {
        assert !OccursAt(s, pat, i + 1);
        if i + |pat| <= |a[1..] + b| {
          assert s[i + 1..i + 1 + |pat|] == (a[1..] + b)[i..i + |pat|];
        }
      }
      ReplaceSkipsPrefix(a[1..], b, pat, rep);
      if |s| >= |pat| {
        assert s[..|pat|] != pat;
        assert ReplaceAll(s, pat, rep) == [a[0]] + ReplaceAll(a[1..] + b, pat, rep);
        assert a == [a[0]] + a[1..];
      } else {
        assert ReplaceAll(b, pat, rep) == b;
      }
    } else {
      assert a + b == b;
    }
  }

  /** A leading occurrence of `pat` is dropped when `rep` is empty. */
  lemma ReplaceDropsLeading(pat: string, b: string)
    requires |pat| > 0
    ensures ReplaceAll(pat + b, pat, "") == ReplaceAll(b, pat, "")
  {
    var s := pat + b;
    assert s[..|pat|] == pat;
    assert s[|pat|..] == b;
  }

  // ---------------------------------------------------------------------------
  // str.count(c), str.lower(), str.isalpha()

  function CountChar(s: string, c: char): nat
  {
    if s == [] then 0 else CountChar(s[..|s| - 1], c) + (if s[|s| - 1] == c then 1 else 0)
  }

  lemma {:induction false} CountCharAbsent(s: string, c: char)
    requires c !in s
    ensures CountChar(s, c) == 0
  {
    if s != [] {
      CountCharAbsent(s[..|s| - 1], c);
    }
  }

  lemma {:induction false} CountCharAppend(a: string, b: string, c: char)
    ensures CountChar(a + b, c) == CountChar(a, c) + CountChar(b, c)
    decreases |b|
  {
    if b == [] {
      assert a + b == a;
    } else {
      assert (a + b)[..|a + b| - 1] == a + b[..|b| - 1];
      CountCharAppend(a, b[..|b| - 1], c);
    }
  }

  lemma CountCharJoin(a: string, b: string, c: char)
    ensures CountChar(a + [c] + b, c) == CountChar(a, c) + 1 + CountChar(b, c)
  {
    CountCharAppend(a + [c], b, c);
    assert (a + [c])[..|a|] == a;
  }

  predicate IsAsciiLetter(c: char)
  {
    ('A' <= c <= 'Z') || ('a' <= c <= 'z')
  }

  /** `s.isalpha()`: non-empty and made of letters. */
  predicate IsAlpha(s: string)
  {
    |s| > 0 && forall i :: 0 <= i < |s| ==> IsAsciiLetter(s[i])
  }

  function LowerChar(c: char): char
  {
    if 'A' <= c <= 'Z' then (c as int + 32) as char else c
  }

  /** `s.lower()`. */
  function Lower(s: string): (r: string)
    ensures |r| == |s|
  {
    seq(|s|, i requires 0 <= i < |s| => LowerChar(s[i]))
  }

  predicate IsLower(s: string)
  {
    forall i :: 0 <= i < |s| ==> !('A' <= s[i] <= 'Z')
  }

  lemma LowerIsLower(s: string)
    ensures IsLower(Lower(s)) && Lower(Lower(s)) == Lower(s)
  {
  }

  // ---------------------------------------------------------------------------
  // str(n) for a natural number

  function DigitChar(d: nat): (c: char)
    requires d < 10
    ensures '0' <= c <= '9'
  {
    ('0' as int + d) as char
  }

  /** `str(n)` for `n >= 0`: the decimal numeral without leading zeros. */
  function Decimal(n: nat): (r: string)
    ensures |r| >= 1
    ensures forall i :: 0 <= i < |r| ==> '0' <= r[i] <= '9'
    ensures Canonical(r)
  {
    if n < 10 then [DigitChar(n)] else Decimal(n / 10) + [DigitChar(n % 10)]
  }

  /** A numeral without a leading zero, unless it is "0" itself. */
  predicate Canonical(s: string)
  {
    s != [] && (|s| == 1 || s[0] != '0')
  }

  /** The value of a string of decimal digits. */
  function DecimalValue(s: string): nat
    requires forall i :: 0 <= i < |s| ==> '0' <= s[i] <= '9'
  {
    if s == [] then 0
    else DecimalValue(s[..|s| - 1]) * 10 + (s[|s| - 1] as int - '0' as int)
  }

  lemma {:induction false} DecimalRoundTrip(n: nat)
    ensures DecimalValue(Decimal(n)) == n
  {
    if n >= 10 {
      DecimalRoundTrip(n / 10);
      var r := Decimal(n);
      assert r[..|r| - 1] == Decimal(n / 10);
    }
  }

  /** A digit string that does not start with '0' has a positive value. */
  lemma {:induction false} LeadingDigitPositive(s: string)
    requires s != [] && s[0] != '0'
    requires forall i :: 0 <= i < |s| ==> '0' <= s[i] <= '9'
    ensures DecimalValue(s) >= 1
    decreases |s|
  {
    if |s| > 1 {
      LeadingDigitPositive(s[..|s| - 1]);
    }
  }

  /** Every canonical numeral is `str` of its value: the other half of the round trip. */
  lemma {:induction false} DecimalCanonical(s: string)
    requires Canonical(s)
    requires forall i :: 0 <= i < |s| ==> '0' <= s[i] <= '9'
    ensures Decimal(DecimalValue(s)) == s
    decreases |s|
  {
    var init := s[..|s| - 1];
    var d := s[|s| - 1] as int - '0' as int;
    assert DigitChar(d) == s[|s| - 1];
    if |s| == 1 {
      assert DecimalValue(s) == d;
    } else {
      LeadingDigitPositive(init);
      DecimalCanonical(init);
      LastDigit(DecimalValue(init), d);
      assert s == init + [s[|s| - 1]];
    }
  }

  lemma LastDigit(a: nat, d: nat)
    requires d < 10
    ensures (a * 10 + d) / 10 == a && (a * 10 + d) % 10 == d
  {
  }

  function Reverse<T>(s: seq<T>): (r: seq<T>)
    ensures |r| == |s|
    ensures forall i :: 0 <= i < |s| ==> r[i] == s[|s| - 1 - i]
  {
    if s == [] then [] else Reverse(s[1..]) + [s[0]]
  }
}

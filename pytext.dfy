/** The parts of Python's string and text-file semantics that the workflow relies on:
    `str.isspace` and `str.strip`, `str.split` and `str.join` with one separator,
    the substring test `sub in s`, `str(int)`, and the lines that iterating over a
    file opened in text mode yields (universal newlines). */
module PyText {
  import opened Outcomes

  // ---------------------------------------------------------------------------
  // Whitespace and strip

  /** `c.isspace()`: the ASCII whitespace and separator characters and the
      Unicode space characters. */
  predicate IsSpace(c: char)
  {
    || ('\t' <= c <= '\r')
    || ('\U{1C}' <= c <= ' ')
    || c == '\U{85}' || c == '\U{A0}' || c == '\U{1680}'
    || ('\U{2000}' <= c <= '\U{200A}')
    || c == '\U{2028}' || c == '\U{2029}' || c == '\U{202F}' || c == '\U{205F}'
    || c == '\U{3000}'
  }

  /** `s.strip() == ""` */
  predicate IsBlank(s: string)
  {
    forall i :: 0 <= i < |s| ==> IsSpace(s[i])
  }

  /** `s.lstrip()` */
  function StripStart(s: string): (r: string)
    ensures |r| <= |s| && r == s[|s| - |r|..]
    ensures forall i :: 0 <= i < |s| - |r| ==> IsSpace(s[i])
    ensures r != [] ==> !IsSpace(r[0])
  {
    if s != [] && IsSpace(s[0]) then StripStart(s[1..]) else s
  }

  /** `s.rstrip()` */
  function StripEnd(s: string): (r: string)
    ensures |r| <= |s| && r == s[..|r|]
    ensures forall i :: |r| <= i < |s| ==> IsSpace(s[i])
    ensures r != [] ==> !IsSpace(r[|r| - 1])
  {
    if s != [] && IsSpace(s[|s| - 1]) then StripEnd(s[..|s| - 1]) else s
  }

  /** Number of leading whitespace characters `s.strip()` removes. */
  function StripLead(s: string): nat
  {
    |s| - |StripStart(s)|
  }

  /** `s.strip()`: `s` without the whitespace at both ends; it is empty exactly
      when `s` is blank. */
  function Strip(s: string): (r: string)
    ensures r == [] <==> IsBlank(s)
  {
    StripEnd(StripStart(s))
  }

  /** `s.strip()` is the slice of `s` that starts and ends with a character that is
      not whitespace, with only whitespace outside it. */
  lemma StripSlice(s: string)
    ensures StripLead(s) + |Strip(s)| <= |s|
    ensures Strip(s) == s[StripLead(s)..StripLead(s) + |Strip(s)|]
    ensures forall i :: 0 <= i < StripLead(s) ==> IsSpace(s[i])
    ensures forall i :: StripLead(s) + |Strip(s)| <= i < |s| ==> IsSpace(s[i])
    ensures Strip(s) != [] ==> !IsSpace(Strip(s)[0]) && !IsSpace(Strip(s)[|Strip(s)| - 1])
  {
    StripSliceValue(s);
    StripSliceOutside(s);
    StripSliceEnds(s);
  }

  lemma StripSliceValue(s: string)
    ensures StripLead(s) + |Strip(s)| <= |s|
    ensures Strip(s) == s[StripLead(s)..StripLead(s) + |Strip(s)|]
  {
    var r := StripEnd(StripStart(s));
    assert r == s[StripLead(s)..StripLead(s) + |r|];
  }

  lemma StripSliceOutside(s: string)
    ensures StripLead(s) + |Strip(s)| <= |s|
    ensures forall i :: 0 <= i < StripLead(s) ==> IsSpace(s[i])
    ensures forall i :: StripLead(s) + |Strip(s)| <= i < |s| ==> IsSpace(s[i])
  {
    var t := StripStart(s);
    var k := StripLead(s);
    forall i | k + |Strip(s)| <= i < |s|
      ensures IsSpace(s[i])
    {
      assert s[i] == t[i - k];
    }
  }

  lemma StripSliceEnds(s: string)
    ensures Strip(s) != [] ==> !IsSpace(Strip(s)[0]) && !IsSpace(Strip(s)[|Strip(s)| - 1])
  {
    var t := StripStart(s);
    var r := StripEnd(t);
    assert r != [] ==> r[0] == t[0];
  }

  /** A character that `s` holds only, if at all, as its last character, and that
      is whitespace, is not in `s.strip()`. */
  lemma StripDropsFinal(s: string, c: char)
    requires IsSpace(c)
    requires forall j :: 0 <= j < |s| - 1 ==> s[j] != c
    ensures c !in Strip(s)
  {
    var r := Strip(s);
    var a := StripLead(s);
    StripSlice(s);
    forall j | 0 <= j < |r| ensures r[j] != c {
      assert r[j] == s[a + j];
      if a + j == |s| - 1 {
        assert j == |r| - 1;
      }
    }
  }

  /** `s.strip()` holds only characters of `s`. */
  lemma StripAvoids(s: string, c: char)
    requires c !in s
    ensures c !in Strip(s)
  {
    var r := Strip(s);
    var a := StripLead(s);
    StripSlice(s);
    forall j | 0 <= j < |r| ensures r[j] != c {
      assert r[j] == s[a + j];
    }
  }

  /** Stripping a stripped string changes nothing. */
  lemma {:induction false} StripIdempotent(s: string)
    ensures Strip(Strip(s)) == Strip(s)
  {
    var r := Strip(s);
    StripSlice(s);
    if r != [] {
      assert StripStart(r) == r;
      assert StripEnd(r) == r;
    }
  }

  // ---------------------------------------------------------------------------
  // Prefixes, suffixes and substrings

  /** `s.startswith(p)` */
  predicate StartsWith(s: string, p: string)
  {
    p <= s
  }

  /** `s.endswith(p)` */
  predicate EndsWith(s: string, p: string)
  {
    |p| <= |s| && s[|s| - |p|..] == p
  }

  /** `sub` stands in `s` from position `i` on. */
  predicate OccursAt(s: string, sub: string, i: int)
  {
    0 <= i && i + |sub| <= |s| && s[i..i + |sub|] == sub
  }

  /** `sub in s`: `sub` occurs at some position of `s`. */
  predicate Contains(s: string, sub: string)
  {
    exists i :: 0 <= i <= |s| && OccursAt(s, sub, i)
  }

  /** A substring of either part is a substring of the concatenation. */
  lemma ContainsConcat(a: string, b: string, sub: string)
    requires Contains(a, sub) || Contains(b, sub)
    ensures Contains(a + b, sub)
  {
    if Contains(a, sub) {
      var i :| 0 <= i <= |a| && OccursAt(a, sub, i);
      assert (a + b)[i..i + |sub|] == a[i..i + |sub|];
      assert OccursAt(a + b, sub, i);
    } else {
      var i :| 0 <= i <= |b| && OccursAt(b, sub, i);
      assert (a + b)[|a| + i..|a| + i + |sub|] == b[i..i + |sub|];
      assert OccursAt(a + b, sub, |a| + i);
    }
  }

  /** An occurrence inside a slice of `s` is an occurrence in that slice. */
  lemma OccursInSlice(s: string, a: nat, b: nat, sub: string, i: int)
    requires a <= i && i + |sub| <= b <= |s|
    requires OccursAt(s, sub, i)
    ensures OccursAt(s[a..b], sub, i - a)
  {
    var t := s[a..b];
    forall k | 0 <= k < |sub|
      ensures t[i - a..i - a + |sub|][k] == sub[k]
    {
      assert t[i - a + k] == s[i + k];
      assert s[i..i + |sub|][k] == s[i + k];
    }
    assert t[i - a..i - a + |sub|] == sub;
  }

  /** A word that neither begins nor ends with whitespace, found in `s`, is
      found in any span `t` of `s` outside which there is only whitespace. */
  lemma SpanKeeps(s: string, a: nat, b: nat, sub: string, t: string)
    requires a <= b <= |s| && t == s[a..b]
    requires forall j :: 0 <= j < a ==> IsSpace(s[j])
    requires forall j :: b <= j < |s| ==> IsSpace(s[j])
    requires sub != [] && !IsSpace(sub[0]) && !IsSpace(sub[|sub| - 1])
    requires Contains(s, sub)
    ensures Contains(t, sub)
  {
    var i :| 0 <= i <= |s| && OccursAt(s, sub, i);
    assert s[i..i + |sub|][0] == s[i];
    assert s[i..i + |sub|][|sub| - 1] == s[i + |sub| - 1];
    OccursInSlice(s, a, b, sub, i);
  }

  /** Stripping keeps every substring that neither begins nor ends with whitespace. */
  lemma StripKeeps(s: string, sub: string)
    requires sub != [] && !IsSpace(sub[0]) && !IsSpace(sub[|sub| - 1])
    requires Contains(s, sub)
    ensures Contains(Strip(s), sub)
  {
    StripSlice(s);
    SpanKeeps(s, StripLead(s), StripLead(s) + |Strip(s)|, sub, Strip(s));
  }

  /** A substring of a slice of `s` is a substring of `s`. */
  lemma ContainsFromSlice(s: string, a: nat, b: nat, sub: string)
    requires a <= b <= |s| && Contains(s[a..b], sub)
    ensures Contains(s, sub)
  {
    var i :| 0 <= i <= b - a && OccursAt(s[a..b], sub, i);
    forall k | 0 <= k < |sub|
      ensures s[a + i..a + i + |sub|][k] == sub[k]
    {
      assert s[a..b][i..i + |sub|][k] == sub[k];
    }
    assert s[a + i..a + i + |sub|] == sub;
    assert OccursAt(s, sub, a + i);
  }

  /** Stripping adds no substring: what `s.strip()` holds, `s` holds. */
  lemma StripContainsOnly(s: string, sub: string)
    requires Contains(Strip(s), sub)
    ensures Contains(s, sub)
  {
    StripSlice(s);
    ContainsFromSlice(s, StripLead(s), StripLead(s) + |Strip(s)|, sub);
  }

  // ---------------------------------------------------------------------------
  // split and join on one separator

  /** `sep.join(xs)` */
  function Join(xs: seq<string>, sep: string): string
  {
    if |xs| == 0 then ""
    else if |xs| == 1 then xs[0]
    else xs[0] + sep + Join(xs[1..], sep)
  }

  /** `s.split(sep)`: the pieces between the separators; there is always one
      more piece than there are separators, and no piece holds the separator. */
  function Split(s: string, sep: char): (r: seq<string>)
    ensures |r| >= 1
    ensures forall i :: 0 <= i < |r| ==> sep !in r[i]
  {
    if s == [] then [""]
    else
      var rest := Split(s[1..], sep);
      if s[0] == sep then [""] + rest
      else [[s[0]] + rest[0]] + rest[1..]
  }

  /** Joining the pieces of a split with the separator gives back the text. */
  lemma {:induction false} JoinSplit(s: string, sep: char)
    ensures Join(Split(s, sep), [sep]) == s
  {
    if s != [] {
      var rest := Split(s[1..], sep);
      JoinSplit(s[1..], sep);
      if s[0] == sep {
        assert Split(s, sep) == [""] + rest;
        assert ([""] + rest)[1..] == rest;
      } else {
        var r := [[s[0]] + rest[0]] + rest[1..];
        assert Split(s, sep) == r;
        if |rest| > 1 {
          assert r[1..] == rest[1..];
          assert Join(rest, [sep]) == rest[0] + [sep] + Join(rest[1..], [sep]);
        }
      }
    }
  }

  /** A join ends with its last piece. */
  lemma {:induction false} JoinEndsWithLast(xs: seq<string>, sep: string)
    requires |xs| >= 1
    ensures EndsWith(Join(xs, sep), xs[|xs| - 1])
  {
    if |xs| > 1 {
      JoinEndsWithLast(xs[1..], sep);
      var j := Join(xs[1..], sep);
      var s := xs[0] + sep + j;
      assert s[|s| - |j|..] == j;
      assert xs[1..][|xs[1..]| - 1] == xs[|xs| - 1];
      assert s[|s| - |xs[|xs| - 1]|..] == j[|j| - |xs[|xs| - 1]|..];
    }
  }

  /** A first character other than the separator joins the first piece. */
  lemma SplitCons(c: char, rest: string, sep: char)
    requires c != sep
    ensures Split([c] + rest, sep) == [[c] + Split(rest, sep)[0]] + Split(rest, sep)[1..]
  {
    var s := [c] + rest;
    assert s[0] == c && s[1..] == rest;
  }

  lemma {:induction false} SplitPrefix(a: string, t: string, sep: char)
    requires sep !in a
    ensures Split(a + t, sep) == [a + Split(t, sep)[0]] + Split(t, sep)[1..]
  {
    if a != [] {
      var u := Split(t, sep);
      assert a + t == [a[0]] + (a[1..] + t);
      SplitCons(a[0], a[1..] + t, sep);
      SplitPrefix(a[1..], t, sep);
      assert [a[0]] + (a[1..] + u[0]) == a + u[0];
    } else {
      var u := Split(t, sep);
      assert a + t == t && a + u[0] == u[0];
      assert [u[0]] + u[1..] == u;
    }
  }

  /** Splitting a join at the separator gives back the pieces, provided no piece
      holds the separator. */
  lemma {:induction false} SplitJoin(xs: seq<string>, sep: char)
    requires |xs| >= 1
    requires forall i :: 0 <= i < |xs| ==> sep !in xs[i]
    ensures Split(Join(xs, [sep]), sep) == xs
  {
    if |xs| == 1 {
      SplitPrefix(xs[0], "", sep);
      assert xs[0] + "" == xs[0];
    } else {
      var j := Join(xs[1..], [sep]);
      SplitJoin(xs[1..], sep);
      assert xs[0] + [sep] + j == xs[0] + ([sep] + j);
      SplitPrefix(xs[0], [sep] + j, sep);
      assert Split([sep] + j, sep) == [""] + Split(j, sep) by {
        assert ([sep] + j)[1..] == j;
      }
      assert xs[0] + "" == xs[0];
    }
  }

  // ---------------------------------------------------------------------------
  // str(int) and the decimal numbers a command-line parser reads back

  predicate IsDigit(c: char)
  {
    '0' <= c <= '9'
  }

  predicate AllDigits(s: string)
  {
    forall i :: 0 <= i < |s| ==> IsDigit(s[i])
  }

  function DigitChar(d: nat): (c: char)
    requires d < 10
    ensures IsDigit(c) && c as int - '0' as int == d
  {
    ('0' as int + d) as char
  }

  /** `str(n)` for a natural number: its decimal digits, most significant first. */
  function Decimal(n: nat): (r: string)
    ensures r != [] && AllDigits(r)
    ensures r[0] == '0' ==> n == 0
  {
    if n < 10 then [DigitChar(n)] else Decimal(n / 10) + [DigitChar(n % 10)]
  }

  /** The value of a string of decimal digits. */
  function DecimalValue(s: string): nat
    requires AllDigits(s)
  {
    if s == [] then 0
    else 10 * DecimalValue(s[..|s| - 1]) + (s[|s| - 1] as int - '0' as int)
  }

  lemma {:induction false} DecimalRoundTrip(n: nat)
    ensures DecimalValue(Decimal(n)) == n
  {
    if n >= 10 {
      var r := Decimal(n);
      assert r[..|r| - 1] == Decimal(n / 10);
      DecimalRoundTrip(n / 10);
    }
  }

  /** The form `str` gives a natural number: at least one digit, and no
      leading zero unless the number is zero itself. */
  predicate CanonicalDecimal(s: string)
  {
    s != [] && AllDigits(s) && (s[0] == '0' ==> |s| == 1)
  }

  lemma {:induction false} LeadingDigitPositive(s: string)
    requires s != [] && AllDigits(s) && s[0] != '0'
    ensures DecimalValue(s) >= 1
  {
    if |s| > 1 {
      LeadingDigitPositive(s[..|s| - 1]);
    }
  }

  /** `str(n)` is the only canonical decimal that reads back as `n`. */
  lemma {:induction false} DecimalUnique(s: string, n: nat)
    requires CanonicalDecimal(s) && DecimalValue(s) == n
    ensures s == Decimal(n)
  {
    if |s| > 1 {
      var p := s[..|s| - 1];
      LeadingDigitPositive(p);
      DecimalUnique(p, DecimalValue(p));
      assert s == p + [s[|s| - 1]];
    }
  }

  /** `str(i)` for any integer. */
  function IntToString(i: int): (r: string)
    ensures r != [] && ' ' !in r && '\n' !in r && '\r' !in r
    ensures IsDigit(r[0]) || (|r| >= 2 && r[0] == '-' && IsDigit(r[1]))
  {
    if i < 0 then "-" + Decimal(-i) else Decimal(i)
  }

  /** How an argument parser reads an integer argument: an optional minus sign
      followed by at least one digit. */
  function ParseInt(s: string): Option<int>
  {
    if s != [] && s[0] == '-' && s[1..] != [] && AllDigits(s[1..]) then Some(0 - DecimalValue(s[1..]))
    else if s != [] && AllDigits(s) then Some(DecimalValue(s))
    else None
  }

  /** `str` of an integer reads back as that integer. */
  lemma IntRoundTrip(i: int)
    ensures ParseInt(IntToString(i)) == Some(i)
  {
    if i < 0 {
      NegativeRoundTrip(-i);
    } else {
      DecimalRoundTrip(i);
    }
  }

  /** A minus sign followed by the digits of `n` reads back as `-n`. */
  lemma NegativeRoundTrip(n: nat)
    ensures ParseInt("-" + Decimal(n)) == Some(0 - n)
  {
    var r := "-" + Decimal(n);
    assert r[1..] == Decimal(n);
    DecimalRoundTrip(n);
  }

  // ---------------------------------------------------------------------------
  // Text files: universal newlines and line iteration

  /** The newline translation of a file opened for reading in text mode:
      "\r\n" and a lone "\r" both become "\n". */
  function Translate(s: string): (t: string)
    ensures '\r' !in t
    ensures '\r' !in s ==> t == s
    ensures |t| <= |s| && (t == [] <==> s == [])
  {
    if s == [] then []
    else if s[0] == '\r' then "\n" + Translate(if |s| > 1 && s[1] == '\n' then s[2..] else s[1..])
    else [s[0]] + Translate(s[1..])
  }

  /** A "\r\n" pair is a single line break. */
  lemma CrlfLineEnd(s: string)
    ensures Translate("\r\n" + s) == "\n" + Translate(s)
  {
    assert ("\r\n" + s)[2..] == s;
  }

  /** Text without carriage returns passes through the translation unchanged. */
  lemma {:induction false} TranslateClean(a: string, b: string)
    requires '\r' !in a
    ensures Translate(a + b) == a + Translate(b)
  {
    if a != [] {
      assert (a + b)[0] == a[0] && (a + b)[1..] == a[1..] + b;
      TranslateClean(a[1..], b);
    } else {
      assert a + b == b;
    }
  }

  /** Length of the first line of `t`, its "\n" included when it has one. */
  function LineEnd(t: string): (k: nat)
    requires t != []
    ensures 1 <= k <= |t|
    ensures forall i :: 0 <= i < k - 1 ==> t[i] != '\n'
    ensures k < |t| ==> t[k - 1] == '\n'
  {
    if t[0] == '\n' || |t| == 1 then 1 else 1 + LineEnd(t[1..])
  }

  /** A line as a line iterator yields it: it is not empty and holds "\n", if at
      all, only as its last character. */
  predicate IsReadLine(l: string)
  {
    l != [] && forall j :: 0 <= j < |l| - 1 ==> l[j] != '\n'
  }

  /** The lines `for line in f` yields for the (translated) text `t`. */
  function LinesOf(t: string): (r: seq<string>)
    ensures forall i :: 0 <= i < |r| ==> IsReadLine(r[i])
    ensures |r| <= |t| && (r == [] <==> t == [])
    decreases |t|
  {
    if t == [] then []
    else
      var k := LineEnd(t);
      [t[..k]] + LinesOf(t[k..])
  }

  /** The lines of a file with contents `content`, read in text mode. */
  function ReadLines(content: string): seq<string>
  {
    LinesOf(Translate(content))
  }

  /** `sum(1 for _ in f)` for a file with contents `content`: no lines exactly
      for an empty file, and never more lines than characters. */
  function LineCount(content: string): (n: nat)
    ensures n == 0 <==> content == []
    ensures n <= |content|
  {
    |ReadLines(content)|
  }

  /** A character missing from the text is missing from every line read from it. */
  lemma {:induction false} LinesOfAvoid(t: string, c: char)
    requires c !in t
    ensures forall i :: 0 <= i < |LinesOf(t)| ==> c !in LinesOf(t)[i]
    decreases |t|
  {
    if t != [] {
      var k := LineEnd(t);
      assert forall j :: 0 <= j < k ==> t[..k][j] == t[j];
      assert forall j :: 0 <= j < |t| - k ==> t[k..][j] == t[k + j];
      LinesOfAvoid(t[k..], c);
    }
  }

  /** The lines of a file hold no "\r" (it was translated), and "\n" only last. */
  lemma ReadLinesShape(content: string)
    ensures forall i :: 0 <= i < |ReadLines(content)| ==>
      IsReadLine(ReadLines(content)[i]) && '\r' !in ReadLines(content)[i]
  {
    LinesOfAvoid(Translate(content), '\r');
  }

  /** What writing each of `ls` followed by "\n" produces. */
  function Terminated(ls: seq<string>): string
  {
    if ls == [] then "" else ls[0] + "\n" + Terminated(ls[1..])
  }

  lemma {:induction false} TerminatedAppend(a: seq<string>, b: seq<string>)
    ensures Terminated(a + b) == Terminated(a) + Terminated(b)
  {
    if a != [] {
      assert (a + b)[0] == a[0];
      assert (a + b)[1..] == a[1..] + b;
      TerminatedAppend(a[1..], b);
    } else {
      assert a + b == b;
    }
  }

  lemma {:induction false} TerminatedAvoids(ls: seq<string>, c: char)
    requires c != '\n'
    requires forall i :: 0 <= i < |ls| ==> c !in ls[i]
    ensures c !in Terminated(ls)
  {
    if ls != [] {
      TerminatedAvoids(ls[1..], c);
    }
  }

  lemma {:induction false} LineEndAt(l: string, rest: string)
    requires '\n' !in l
    ensures LineEnd(l + "\n" + rest) == |l| + 1
  {
    if l != [] {
      assert (l + "\n" + rest)[1..] == l[1..] + "\n" + rest;
      LineEndAt(l[1..], rest);
    }
  }

  lemma LinesOfCons(l: string, rest: string)
    requires '\n' !in l
    ensures LinesOf(l + "\n" + rest) == [l + "\n"] + LinesOf(rest)
  {
    var t := l + "\n" + rest;
    LineEndAt(l, rest);
    assert t[..|l| + 1] == l + "\n";
    assert t[|l| + 1..] == rest;
  }

  /** Reading back lines written each with its "\n" yields exactly those lines,
      provided none of them holds a line break. */
  lemma {:induction false} ReadTerminated(ls: seq<string>)
    requires forall i :: 0 <= i < |ls| ==> '\n' !in ls[i] && '\r' !in ls[i]
    ensures |ReadLines(Terminated(ls))| == |ls|
    ensures forall i :: 0 <= i < |ls| ==> ReadLines(Terminated(ls))[i] == ls[i] + "\n"
  {
    TerminatedAvoids(ls, '\r');
    if ls != [] {
      ReadTerminated(ls[1..]);
      TerminatedAvoids(ls[1..], '\r');
      LinesOfCons(ls[0], Terminated(ls[1..]));
    }
  }

  /** Reading back lines joined by "\n", with no trailing "\n", yields as many
      lines as were joined, provided none is empty or holds a line break. */
  lemma {:induction false} ReadJoined(ls: seq<string>)
    requires |ls| >= 1
    requires forall i :: 0 <= i < |ls| ==> ls[i] != "" && '\n' !in ls[i] && '\r' !in ls[i]
    ensures LineCount(Join(ls, "\n")) == |ls|
    decreases |ls|
  {
    JoinAvoids(ls, "\n", '\r');
    if |ls| == 1 {
      var l := ls[0];
      assert Join(ls, "\n") == l;
      assert Translate(l) == l;
      assert LineEnd(l) == |l|;
      assert l[..|l|] == l && l[|l|..] == [];
      assert LinesOf(l) == [l];
    } else {
      ReadJoined(ls[1..]);
      JoinAvoids(ls[1..], "\n", '\r');
      LinesOfCons(ls[0], Join(ls[1..], "\n"));
    }
  }

  lemma {:induction false} JoinAvoids(xs: seq<string>, sep: string, c: char)
    requires c !in sep
    requires forall i :: 0 <= i < |xs| ==> c !in xs[i]
    ensures c !in Join(xs, sep)
  {
    if |xs| > 1 {
      JoinAvoids(xs[1..], sep, c);
    }
  }
}

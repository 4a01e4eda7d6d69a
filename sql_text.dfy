/** The two text predicates the mail search depends on: Rust's `str::trim`,
    which decides whether a query is blank, and SQLite's LIKE operator with
    its default collation, which folds the 26 ASCII letters and nothing else. */
module SqlText {

  /** The Unicode White_Space property, which `char::is_whitespace` and so
      `str::trim` use. */
  predicate IsWhitespace(c: char) {
    || ('\t' <= c <= '\r')
    || c == ' '
    || c == '\U{0085}'
    || c == '\U{00A0}'
    || c == '\U{1680}'
    || ('\U{2000}' <= c <= '\U{200A}')
    || c == '\U{2028}'
    || c == '\U{2029}'
    || c == '\U{202F}'
    || c == '\U{205F}'
    || c == '\U{3000}'
  }

  predicate IsBlank(s: string) {
    forall i :: 0 <= i < |s| ==> IsWhitespace(s[i])
  }

  /** Drops the leading whitespace: what is dropped is blank, and what is
      kept is a suffix that does not start with whitespace. */
  function TrimStart(s: string): (r: string)
    ensures |r| <= |s| && r == s[|s| - |r|..]
    ensures IsBlank(s[..|s| - |r|])
    ensures r == [] || !IsWhitespace(r[0])
  {
    if s != [] && IsWhitespace(s[0]) then
      var r := TrimStart(s[1..]);
      var d := |s| - |r|;
      assert IsBlank(s[..d]) by {
        forall i | 0 <= i < d ensures IsWhitespace(s[..d][i]) {
          if i > 0 {
            assert s[..d][i] == s[1..][..d - 1][i - 1];
          }
        }
      }
      r
    else
      s
  }

  /** Drops the trailing whitespace: what is dropped is blank, and what is
      kept is a prefix that does not end with whitespace. */
  function TrimEnd(s: string): (r: string)
    ensures |r| <= |s| && r == s[..|r|]
    ensures IsBlank(s[|r|..])
    ensures r == [] || !IsWhitespace(r[|r| - 1])
  {
    if s != [] && IsWhitespace(s[|s| - 1]) then
      var r := TrimEnd(s[..|s| - 1]);
      assert s[|r|..] == s[..|s| - 1][|r|..] + [s[|s| - 1]];
      r
    else
      s
  }

  /** `str::trim`: nothing is left exactly when the string is all whitespace. */
  function Trim(s: string): (r: string)
    ensures r == [] <==> IsBlank(s)
  {
    var t := TrimStart(s);
    var r := TrimEnd(t);
    if r == [] then
      assert IsBlank(t) by { assert t[|r|..] == t; }
      assert s == s[..|s| - |t|] + t;
      r
    else
      assert !IsWhitespace(r[|r| - 1]) && r[|r| - 1] == s[|s| - |t| + |r| - 1];
      r
  }

  /** SQLite's default case folding for LIKE: ASCII upper case to lower case. */
  function FoldAscii(c: char): (r: char)
    ensures !('A' <= r <= 'Z')
    ensures ('a' <= r <= 'z') <==> ('a' <= c <= 'z' || 'A' <= c <= 'Z')
    ensures !('A' <= c <= 'Z') ==> r == c
    ensures 'A' <= c <= 'Z' ==> r as int == c as int + 32
  {
    if 'A' <= c <= 'Z' then (c as int + 32) as char else c
  }

  predicate IsAsciiLetter(c: char) {
    'A' <= c <= 'Z' || 'a' <= c <= 'z'
  }

  /** Two characters fold alike exactly when they are equal or are the
      upper- and lower-case forms of one ASCII letter. */
  lemma FoldAsciiAlike(a: char, b: char)
    ensures FoldAscii(a) == FoldAscii(b) <==>
      a == b || (IsAsciiLetter(a) && IsAsciiLetter(b) && (a as int - b as int == 32 || b as int - a as int == 32))
  {
    if 'A' <= a <= 'Z' && 'A' <= b <= 'Z' && FoldAscii(a) == FoldAscii(b) {
      assert a as int == FoldAscii(a) as int - 32;
    }
  }

  /** `a` and `b` are equal once both are folded. */
  predicate SameIgnoringCase(a: string, b: string) {
    |a| == |b| && forall i :: 0 <= i < |a| ==> FoldAscii(a[i]) == FoldAscii(b[i])
  }

  /** `needle` occurs in `hay` at position `i` when ASCII case is ignored. */
  predicate OccursAt(hay: string, needle: string, i: int) {
    0 <= i && i + |needle| <= |hay| && SameIgnoringCase(hay[i..i + |needle|], needle)
  }

  /** `needle` occurs somewhere in `hay` when ASCII case is ignored. */
  ghost predicate ContainsIgnoringCase(hay: string, needle: string) {
    exists i :: OccursAt(hay, needle, i)
  }

  /** `text LIKE pattern` without an ESCAPE clause: `%` matches any run of
      characters, `_` matches exactly one, and every other pattern character
      matches itself up to ASCII case. */
  function Like(pattern: string, text: string): (r: bool)
    ensures IsLiteral(pattern) ==> (r <==> SameIgnoringCase(pattern, text))
    decreases |pattern| + |text|
  {
    if pattern == [] then
      text == []
    else if pattern[0] == '%' then
      Like(pattern[1..], text) || (text != [] && Like(pattern, text[1..]))
    else if text == [] then
      false
    else if pattern[0] == '_' then
      Like(pattern[1..], text[1..])
    else
      LiteralTail(pattern);
      SameIgnoringCaseCons(pattern, text);
      FoldAscii(pattern[0]) == FoldAscii(text[0]) && Like(pattern[1..], text[1..])
  }

  /** Dropping the first character of a literal leaves a literal. */
  lemma LiteralTail(q: string)
    requires q != []
    ensures IsLiteral(q) ==> IsLiteral(q[1..])
  {
    if IsLiteral(q) {
      forall i | 0 <= i < |q[1..]| ensures q[1..][i] != '%' && q[1..][i] != '_' {
        assert q[1..][i] == q[i + 1];
      }
    }
  }

  /** Two nonempty strings are equal up to case exactly when their first
      characters are and the rests are. */
  lemma SameIgnoringCaseCons(a: string, b: string)
    requires a != [] && b != []
    ensures SameIgnoringCase(a, b) <==>
      FoldAscii(a[0]) == FoldAscii(b[0]) && SameIgnoringCase(a[1..], b[1..])
  {
    if FoldAscii(a[0]) == FoldAscii(b[0]) && SameIgnoringCase(a[1..], b[1..]) {
      forall i | 0 <= i < |a| ensures FoldAscii(a[i]) == FoldAscii(b[i]) {
        if i > 0 {
          assert a[i] == a[1..][i - 1] && b[i] == b[1..][i - 1];
        }
      }
    }
    if SameIgnoringCase(a, b) {
      forall i | 0 <= i < |a[1..]| ensures FoldAscii(a[1..][i]) == FoldAscii(b[1..][i]) {
        assert a[1..][i] == a[i + 1] && b[1..][i] == b[i + 1];
      }
    }
  }

  /** `q` holds no LIKE wildcard. */
  predicate IsLiteral(q: string) {
    forall i :: 0 <= i < |q| ==> q[i] != '%' && q[i] != '_'
  }

  /** The pattern `search_emails` builds with `format!("%{}%", query)`. */
  function SearchPattern(query: string): (r: string)
    ensures |r| == |query| + 2
    ensures r[0] == '%' && r[|r| - 1] == '%' && r[1..|r| - 1] == query
  {
    "%" + query + "%"
  }

  lemma {:induction false} PercentMatchesAll(text: string)
    ensures Like("%", text)
  {
    assert "%"[1..] == [];
    if text != [] {
      PercentMatchesAll(text[1..]);
    }
  }

  /** A literal followed by `%` matches exactly the texts that start with
      that literal, ignoring ASCII case. */
  lemma {:induction false} LiteralThenPercent(q: string, text: string)
    requires IsLiteral(q)
    ensures Like(q + "%", text) <==> |q| <= |text| && SameIgnoringCase(text[..|q|], q)
  {
    if q == [] {
      assert q + "%" == "%";
      PercentMatchesAll(text);
    } else {
      var p := q + "%";
      assert p[0] == q[0] && p[1..] == q[1..] + "%";
      if text != [] {
        assert IsLiteral(q[1..]) by {
          forall i | 0 <= i < |q[1..]| ensures q[1..][i] != '%' && q[1..][i] != '_' {
            assert q[1..][i] == q[i + 1];
          }
        }
        LiteralThenPercent(q[1..], text[1..]);
        if |q| <= |text| {
          var a, b := text[..|q|], text[1..][..|q| - 1];
          assert a == [text[0]] + b;
          if SameIgnoringCase(a, q) {
            assert FoldAscii(text[0]) == FoldAscii(q[0]);
            assert SameIgnoringCase(b, q[1..]) by {
              forall i | 0 <= i < |b| ensures FoldAscii(b[i]) == FoldAscii(q[1..][i]) {
                assert b[i] == a[i + 1];
              }
            }
          }
          if FoldAscii(text[0]) == FoldAscii(q[0]) && SameIgnoringCase(b, q[1..]) {
            assert SameIgnoringCase(a, q) by {
              forall i | 0 <= i < |a| ensures FoldAscii(a[i]) == FoldAscii(q[i]) {
                if i > 0 { assert a[i] == b[i - 1] && q[i] == q[1..][i - 1]; }
              }
            }
          }
        }
      }
    }
  }

  /** A leading `%` lets the rest of the pattern match any suffix. */
  lemma {:induction false} PercentThen(p: string, text: string)
    ensures Like("%" + p, text) <==> exists i :: 0 <= i <= |text| && Like(p, text[i..])
  {
    var pp := "%" + p;
    assert pp[0] == '%' && pp[1..] == p;
    if text == [] {
      assert text[0..] == text;
    } else {
      PercentThen(p, text[1..]);
      if Like(pp, text) {
        if Like(p, text) {
          assert text[0..] == text;
        } else {
          var j :| 0 <= j <= |text[1..]| && Like(p, text[1..][j..]);
          assert text[1..][j..] == text[j + 1..];
        }
      }
      if exists i :: 0 <= i <= |text| && Like(p, text[i..]) {
        var i :| 0 <= i <= |text| && Like(p, text[i..]);
        if i == 0 {
          assert text[0..] == text;
        } else {
          assert text[1..][i - 1..] == text[i..];
        }
      }
    }
  }

  /** A literal followed by `%` matches the suffix of `text` from `i` on
      exactly when the literal occurs at `i`. */
  lemma SuffixMatch(q: string, text: string, i: nat)
    requires IsLiteral(q) && i <= |text|
    ensures Like(q + "%", text[i..]) <==> OccursAt(text, q, i)
  {
    LiteralThenPercent(q, text[i..]);
    if i + |q| <= |text| {
      assert text[i..][..|q|] == text[i..i + |q|];
    }
  }

  /** For a query without wildcards, the search pattern matches a text
      exactly when the text contains the query, ignoring ASCII case. */
  lemma SearchPatternIsSubstring(q: string, text: string)
    requires IsLiteral(q)
    ensures Like(SearchPattern(q), text) <==> ContainsIgnoringCase(text, q)
  {
    assert SearchPattern(q) == "%" + (q + "%");
    PercentThen(q + "%", text);
    if Like(SearchPattern(q), text) {
      var i :| 0 <= i <= |text| && Like(q + "%", text[i..]);
      SuffixMatch(q, text, i);
    }
    if ContainsIgnoringCase(text, q) {
      var i :| OccursAt(text, q, i);
      SuffixMatch(q, text, i);
    }
  }

  /** The query is not escaped, so `_` in it matches any character: the query
      "a_c" finds the text "abc", which does not contain it. */
  lemma UnderscoreIsAWildcard()
    ensures Like(SearchPattern("a_c"), "abc")
    ensures !ContainsIgnoringCase("abc", "a_c")
  {
    var p := SearchPattern("a_c");
    assert p == "%a_c%";
    assert p[1..] == "a_c%" && p[2..] == "_c%" && p[3..] == "c%" && p[4..] == "%" && p[5..] == "";
    assert "abc"[1..] == "bc" && "bc"[1..] == "c" && "c"[1..] == "";
    assert Like("%", "");
    assert Like("c%", "c");
    assert Like("_c%", "bc");
    assert Like("a_c%", "abc");
    forall i ensures !OccursAt("abc", "a_c", i) {
      if i == 0 {
        assert "abc"[0..3][1] == 'b' && "a_c"[1] == '_';
      }
    }
  }

  /** `pattern` has no `%`, and agrees with `text` up to ASCII case at
      every position where it does not hold `_`. */
  predicate FitsAt(pattern: string, text: string) {
    && |pattern| <= |text|
    && forall i :: 0 <= i < |pattern| ==>
         pattern[i] != '%' && (pattern[i] == '_' || FoldAscii(pattern[i]) == FoldAscii(text[i]))
  }

  /** A `%`-free pattern followed by `%` matches every text whose start fits
      it, whatever the text holds where the pattern has `_`. */
  lemma {:induction false} FitsThenPercent(p: string, text: string)
    requires FitsAt(p, text)
    ensures Like(p + "%", text)
  {
    if p == [] {
      assert p + "%" == "%";
      PercentMatchesAll(text);
    } else {
      var pp := p + "%";
      assert pp[0] == p[0] && pp[1..] == p[1..] + "%";
      assert FitsAt(p[1..], text[1..]) by {
        forall i | 0 <= i < |p[1..]|
          ensures p[1..][i] != '%' && (p[1..][i] == '_' || FoldAscii(p[1..][i]) == FoldAscii(text[1..][i]))
        {
          assert p[1..][i] == p[i + 1] && text[1..][i] == text[i + 1];
        }
      }
      FitsThenPercent(p[1..], text[1..]);
    }
  }

  /** The query is not escaped, so every `_` in it is a wildcard: a query
      without `%` finds every text that agrees with it, ignoring ASCII case,
      at some offset and at every position where the query does not hold
      `_`. */
  lemma UnderscoreMatchesAnyCharacter(q: string, text: string, k: nat)
    requires k + |q| <= |text|
    requires forall i :: 0 <= i < |q| ==> q[i] != '%'
    requires forall i :: 0 <= i < |q| && q[i] != '_' ==> FoldAscii(q[i]) == FoldAscii(text[k + i])
    ensures Like(SearchPattern(q), text)
  {
    assert SearchPattern(q) == "%" + (q + "%");
    assert FitsAt(q, text[k..]) by {
      forall i | 0 <= i < |q| ensures q[i] == '_' || FoldAscii(q[i]) == FoldAscii(text[k..][i]) {
        assert text[k..][i] == text[k + i];
      }
    }
    FitsThenPercent(q, text[k..]);
    PercentThen(q + "%", text);
  }
}

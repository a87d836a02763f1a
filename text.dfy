/**
 * The string operations the handlers rely on: Python's `str.strip()`, and
 * the case-insensitive `LIKE` that SQLite evaluates for the ORM's `ilike`.
 */
module Text {

  /** The characters Python's `str.isspace()` accepts, which `str.strip()` removes. */
  predicate IsSpace(c: char)
  {
    c == ' ' || ('\t' <= c <= '\r') || ('\U{1c}' <= c <= '\U{1f}')
    || c == '\U{85}' || c == '\U{a0}' || c == '\U{1680}'
    || ('\U{2000}' <= c <= '\U{200a}') || c == '\U{2028}' || c == '\U{2029}'
    || c == '\U{202f}' || c == '\U{205f}' || c == '\U{3000}'
  }

  function TrimStart(s: string): (r: string)
    ensures |r| <= |s| && r == s[|s| - |r|..]
    ensures forall i :: 0 <= i < |s| - |r| ==> IsSpace(s[i])
    ensures r == [] || !IsSpace(r[0])
    decreases |s|
  {
    if s != [] && IsSpace(s[0]) then TrimStart(s[1..]) else s
  }

  function TrimEnd(s: string): (r: string)
    ensures |r| <= |s| && r == s[..|r|]
    ensures forall i :: |r| <= i < |s| ==> IsSpace(s[i])
    ensures r == [] || !IsSpace(r[|r| - 1])
    decreases |s|
  {
    if s != [] && IsSpace(s[|s| - 1]) then TrimEnd(s[..|s| - 1]) else s
  }

  /**
   * Python's `s.strip()`: the longest slice of `s` that neither starts nor
   * ends with whitespace; it is empty exactly when `s` is all whitespace.
   */
  function Trim(s: string): (r: string)
    ensures |r| <= |s|
    ensures r == [] || (!IsSpace(r[0]) && !IsSpace(r[|r| - 1]))
    ensures r == [] <==> forall i :: 0 <= i < |s| ==> IsSpace(s[i])
  {
    var a := TrimStart(s);
    var r := TrimEnd(a);
    assert forall i :: |s| - |a| <= i < |s| && |s| - |a| + |r| <= i ==> IsSpace(s[i]) by {
      forall i | |s| - |a| <= i < |s| && |s| - |a| + |r| <= i ensures IsSpace(s[i]) {
        assert s[i] == a[i - (|s| - |a|)];
      }
    }
    assert r != [] ==> s[|s| - |a|] == r[0] && !IsSpace(s[|s| - |a|]);
    r
  }

  /** SQLite's built-in `lower()`: only the ASCII letters A-Z are folded. */
  function AsciiLower(c: char): char
  {
    if 'A' <= c <= 'Z' then (c as int + 32) as char else c
  }

  function Lower(s: string): (r: string)
    ensures |r| == |s|
    ensures forall i :: 0 <= i < |s| ==> r[i] == AsciiLower(s[i])
  {
    seq(|s|, i requires 0 <= i < |s| => AsciiLower(s[i]))
  }

  /**
   * SQLite's `text LIKE pattern` without an ESCAPE clause: `%` matches any
   * run of characters, `_` exactly one, and other characters match up to
   * ASCII case.
   */
  function Like(pattern: string, text: string): bool
    decreases |pattern|, |text|
  {
    if pattern == [] then text == []
    else if pattern[0] == '%' then
      Like(pattern[1..], text) || (text != [] && Like(pattern, text[1..]))
    else
      text != []
      && (pattern[0] == '_' || AsciiLower(pattern[0]) == AsciiLower(text[0]))
      && Like(pattern[1..], text[1..])
  }

  predicate NoWildcards(q: string)
  {
    forall i :: 0 <= i < |q| ==> q[i] != '%' && q[i] != '_'
  }

  /** `needle` occurs in `hay` at offset `k`, up to ASCII case. */
  predicate OccursAt(hay: string, needle: string, k: int)
  {
    0 <= k <= |hay| - |needle| && Lower(hay[k..k + |needle|]) == Lower(needle)
  }

  /** `needle` occurs somewhere in `hay`, up to ASCII case. */
  predicate ContainsIgnoringCase(hay: string, needle: string)
  {
    exists k | 0 <= k <= |hay| - |needle| :: OccursAt(hay, needle, k)
  }

  /** `q` is a prefix of `text` up to ASCII case. */
  predicate StartsWithIgnoringCase(text: string, q: string)
  {
    |q| <= |text| && Lower(q) == Lower(text[..|q|])
  }

  lemma {:induction false} PercentMatchesAll(text: string)
    ensures Like("%", text)
    decreases |text|
  {
    assert "%"[1..] == [];
    if text != [] {
      PercentMatchesAll(text[1..]);
    }
  }

  lemma StartsWithCons(text: string, q: string)
    requires q != [] && text != []
    ensures StartsWithIgnoringCase(text, q)
        <==> AsciiLower(q[0]) == AsciiLower(text[0]) && StartsWithIgnoringCase(text[1..], q[1..])
  {
    if |q| <= |text| {
      var a, b := Lower(q), Lower(text[..|q|]);
      var a', b' := Lower(q[1..]), Lower(text[1..][..|q| - 1]);
      assert forall i :: 0 <= i < |a'| ==> a'[i] == a[i + 1] && b'[i] == b[i + 1];
      if a == b {
        assert a' == b';
      }
      if AsciiLower(q[0]) == AsciiLower(text[0]) && a' == b' {
        assert forall i :: 0 <= i < |a| ==> a[i] == b[i] by {
          forall i | 0 <= i < |a| ensures a[i] == b[i] {
            if i > 0 { assert a'[i - 1] == b'[i - 1]; }
          }
        }
      }
    }
  }

  /** A wildcard-free `q` followed by `%` matches the texts that start with `q` up to case. */
  lemma {:induction false} LikePrefix(q: string, text: string)
    requires NoWildcards(q)
    ensures Like(q + "%", text) <==> StartsWithIgnoringCase(text, q)
    decreases |q|
  {
    var p := q + "%";
    if q == [] {
      assert p == "%";
      PercentMatchesAll(text);
    } else {
      assert p[0] == q[0] && p[1..] == q[1..] + "%";
      assert q[0] != '%' && q[0] != '_';
      assert NoWildcards(q[1..]) by {
        forall i | 0 <= i < |q[1..]| ensures q[1..][i] != '%' && q[1..][i] != '_' {
          assert q[1..][i] == q[i + 1];
        }
      }
      if text != [] {
        LikePrefix(q[1..], text[1..]);
        StartsWithCons(text, q);
      }
    }
  }

  /** A pattern that starts with `%` matches when the rest matches some suffix. */
  lemma {:induction false} LikeLeadingPercent(p: string, text: string)
    ensures Like("%" + p, text) <==> exists k :: 0 <= k <= |text| && Like(p, text[k..])
    decreases |text|
  {
    var pp := "%" + p;
    assert pp[0] == '%' && pp[1..] == p;
    assert text[0..] == text;
    if text != [] {
      LikeLeadingPercent(p, text[1..]);
      if Like(pp, text[1..]) {
        var k :| 0 <= k <= |text[1..]| && Like(p, text[1..][k..]);
        assert text[1..][k..] == text[k + 1..];
      }
      if exists k :: 0 <= k <= |text| && Like(p, text[k..]) {
        var k :| 0 <= k <= |text| && Like(p, text[k..]);
        if k > 0 {
          assert text[k..] == text[1..][k - 1..];
        }
      }
    }
  }

  /**
   * For a query without `%` or `_`, the search pattern `%q%` matches exactly
   * the texts that contain `q` as a substring up to ASCII case.
   */
  lemma SearchPatternIsSubstring(q: string, text: string)
    requires NoWildcards(q)
    ensures Like("%" + q + "%", text) <==> ContainsIgnoringCase(text, q)
  {
    assert "%" + q + "%" == "%" + (q + "%");
    LikeLeadingPercent(q + "%", text);
    if Like("%" + q + "%", text) {
      var k :| 0 <= k <= |text| && Like(q + "%", text[k..]);
      LikePrefix(q, text[k..]);
      assert text[k..][..|q|] == text[k..k + |q|];
      assert OccursAt(text, q, k);
    }
    if ContainsIgnoringCase(text, q) {
      var k :| 0 <= k <= |text| - |q| && OccursAt(text, q, k);
      LikePrefix(q, text[k..]);
      assert text[k..][..|q|] == text[k..k + |q|];
    }
  }

  /** `_` matches any single character, whatever the character. */
  lemma UnderscoreMatchesAnyCharacter(p: string, c: char, text: string)
    ensures Like("_" + p, [c] + text) <==> Like(p, text)
    ensures !Like("_" + p, [])
  {
    assert ("_" + p)[1..] == p;
    assert ([c] + text)[1..] == text;
  }

  /** `_` in a search query is a wildcard: "a_c" finds "ABC" although it is not a substring. */
  lemma UnderscoreIsAWildcard()
    ensures Like("%a_c%", "ABC") && !ContainsIgnoringCase("ABC", "a_c")
  {
    PercentMatchesAll([]);
    assert Like("%", []);
    assert Like("c%", "C");
    assert Like("_c%", "BC");
    assert Like("a_c%", "ABC");
    assert Lower("a_c") == "a_c";
    assert Lower("ABC"[0..3]) == "abc";
    assert !OccursAt("ABC", "a_c", 0);
  }
}

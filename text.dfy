/**
 * The string tests the core relies on: Spring's `StringUtils.hasText`, the
 * `@NotBlank` constraint, `String.startsWith`, `String.equalsIgnoreCase`
 * and the JPQL `LIKE` operator.
 */
module Text {
  import opened Common

  /** `Character.isWhitespace`: the Unicode space separators other than the
      non-breaking ones, the line and paragraph separators, and the ASCII
      controls TAB, LF, VT, FF, CR and FS..US. */
  predicate IsWhitespace(c: char)
  {
    || c == ' ' || c == '\t' || c == '\n' || c == '\U{000B}' || c == '\U{000C}' || c == '\r'
    || ('\U{001C}' <= c <= '\U{001F}')
    || c == '\U{1680}' || ('\U{2000}' <= c <= '\U{2006}') || ('\U{2008}' <= c <= '\U{200A}')
    || c == '\U{2028}' || c == '\U{2029}' || c == '\U{205F}' || c == '\U{3000}'
  }

  /** `StringUtils.hasText`: non-null and holding a non-whitespace character. */
  predicate HasText(s: Option<string>)
  {
    s.Some? && exists i :: 0 <= i < |s.value| && !IsWhitespace(s.value[i])
  }

  /** The `@NotBlank` constraint: what is left after `trim()` (which drops
      leading and trailing characters up to U+0020) is not empty. */
  predicate NotBlank(s: string)
  {
    exists i :: 0 <= i < |s| && s[i] > ' '
  }

  predicate StartsWith(s: string, prefix: string)
  {
    |prefix| <= |s| && s[..|prefix|] == prefix
  }

  /** Case folding of ASCII letters. */
  function LowerAscii(c: char): char
  {
    if 'A' <= c <= 'Z' then (c as int + 32) as char else c
  }

  /** `a.equalsIgnoreCase(b)`; a null `b` never matches. */
  predicate EqualsIgnoreCase(a: string, b: Option<string>)
  {
    b.Some? && |a| == |b.value| &&
    forall i :: 0 <= i < |a| ==> LowerAscii(a[i]) == LowerAscii(b.value[i])
  }

  lemma EqualsIgnoreCaseSymmetric(a: string, b: string)
    ensures EqualsIgnoreCase(a, Some(b)) <==> EqualsIgnoreCase(b, Some(a))
  {
  }

  /** `s LIKE pattern`: `%` matches any run of characters, `_` any single
      character, every other character itself. */
  predicate LikeMatch(s: string, pattern: string)
    decreases |s| + |pattern|
  {
    if pattern == [] then s == []
    else if pattern[0] == '%' then
      LikeMatch(s, pattern[1..]) || (s != [] && LikeMatch(s[1..], pattern))
    else
      s != [] && (pattern[0] == '_' || pattern[0] == s[0]) && LikeMatch(s[1..], pattern[1..])
  }

  /** `column = :param` in SQL: a null on either side selects nothing. */
  predicate SqlEquals<T(==)>(column: Option<T>, param: Option<T>)
  {
    column.Some? && param.Some? && column.value == param.value
  }

  /** `column LIKE %:param%` with a bound parameter: a null parameter makes
      the comparison NULL, which selects nothing. */
  predicate SqlContains(column: string, param: Option<string>)
  {
    param.Some? && LikeMatch(column, "%" + param.value + "%")
  }

  predicate NoWildcards(p: string)
  {
    forall i :: 0 <= i < |p| ==> p[i] != '%' && p[i] != '_'
  }

  /** `sub` occurs in `s` at some position. */
  predicate Contains(s: string, sub: string)
  {
    exists i :: 0 <= i <= |s| && StartsWith(s[i..], sub)
  }

  lemma {:induction false} PercentMatchesAll(t: string)
    ensures LikeMatch(t, "%")
    decreases |t|
  {
    assert "%"[1..] == [];
    if t != [] {
      PercentMatchesAll(t[1..]);
    }
  }

  lemma {:induction false} PrefixThenPercent(t: string, p: string)
    requires NoWildcards(p)
    ensures LikeMatch(t, p + "%") <==> StartsWith(t, p)
    decreases |p|
  {
    if p == [] {
      assert p + "%" == "%";
      PercentMatchesAll(t);
    } else {
      assert (p + "%")[0] == p[0];
      assert (p + "%")[1..] == p[1..] + "%";
      if t != [] {
        PrefixThenPercent(t[1..], p[1..]);
        if StartsWith(t, p) {
          assert t[1..][..|p| - 1] == t[..|p|][1..];
        }
        if StartsWith(t[1..], p[1..]) && p[0] == t[0] {
          assert t[..|p|] == [t[0]] + t[1..][..|p| - 1];
        }
      }
    }
  }

  lemma {:induction false} LeadingPercent(s: string, q: string)
    ensures LikeMatch(s, "%" + q) <==> exists i :: 0 <= i <= |s| && LikeMatch(s[i..], q)
    decreases |s|
  {
    assert ("%" + q)[0] == '%';
    assert ("%" + q)[1..] == q;
    if s == [] {
      assert s[0..] == s;
    } else {
      LeadingPercent(s[1..], q);
      if LikeMatch(s, "%" + q) {
        if LikeMatch(s, q) {
          assert s[0..] == s;
        } else {
          var i :| 0 <= i <= |s[1..]| && LikeMatch(s[1..][i..], q);
          assert s[1..][i..] == s[i + 1..];
        }
      }
      if exists i :: 0 <= i <= |s| && LikeMatch(s[i..], q) {
        var i :| 0 <= i <= |s| && LikeMatch(s[i..], q);
        if i == 0 {
          assert s[0..] == s;
        } else {
          assert s[1..][i - 1..] == s[i..];
        }
      }
    }
  }

  /** With no wildcard in the parameter, `LIKE %p%` is substring containment. */
  lemma {:induction false} LikeIsContains(s: string, p: string)
    requires NoWildcards(p)
    ensures SqlContains(s, Some(p)) <==> Contains(s, p)
  {
    assert "%" + p + "%" == "%" + (p + "%");
    LeadingPercent(s, p + "%");
    forall i | 0 <= i <= |s|
      ensures LikeMatch(s[i..], p + "%") <==> StartsWith(s[i..], p)
    {
      PrefixThenPercent(s[i..], p);
    }
  }
}

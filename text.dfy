/** The JavaScript string operations the filters and forms rely on:
    `toLowerCase`, `includes`, `trim`, `localeCompare` (as code-unit order)
    and `Boolean.prototype.toString`. Strings are sequences of characters. */
module Text {

  /** `toLowerCase` on one character: ASCII and Latin-1 capitals (the letters
      of Spanish product and category names, accented ones and Ñ included). */
  function LowerChar(c: char): char {
    if 'A' <= c <= 'Z' || ('\U{00C0}' <= c <= '\U{00DE}' && c != '\U{00D7}')
    then (c as int + 32) as char
    else c
  }

  function Lower(s: string): (r: string)
    ensures |r| == |s|
    ensures forall i :: 0 <= i < |s| ==> r[i] == LowerChar(s[i])
  {
    seq(|s|, i requires 0 <= i < |s| => LowerChar(s[i]))
  }

  /** Lower-casing twice is lower-casing once. */
  lemma LowerIdempotent(s: string)
    ensures Lower(Lower(s)) == Lower(s)
  {
    forall i | 0 <= i < |s|
      ensures Lower(Lower(s))[i] == Lower(s)[i]
    {
      var c := s[i];
      assert LowerChar(LowerChar(c)) == LowerChar(c);
    }
  }

  predicate StartsWith(s: string, t: string) {
    |t| <= |s| && s[..|t|] == t
  }

  /** `s.includes(t)`: `t` occurs in `s` at some position. */
  predicate Contains(s: string, t: string)
    decreases |s|
  {
    StartsWith(s, t) || (|s| > 0 && Contains(s[1..], t))
  }

  /** `t` occurs in `s` starting at offset `i`. */
  predicate OccursAt(s: string, t: string, i: int) {
    0 <= i <= |s| - |t| && s[i..i + |t|] == t
  }

  /** `includes` holds exactly when there is an offset at which `t` occurs. */
  lemma {:induction false} ContainsAt(s: string, t: string)
    ensures Contains(s, t) <==> exists i :: OccursAt(s, t, i)
    decreases |s|
  {
    if StartsWith(s, t) {
      assert OccursAt(s, t, 0);
    } else if |s| == 0 {
    } else {
      ContainsAt(s[1..], t);
      if Contains(s[1..], t) {
        var i :| OccursAt(s[1..], t, i);
        assert s[i + 1..i + 1 + |t|] == s[1..][i..i + |t|];
        assert OccursAt(s, t, i + 1);
      }
      if exists i :: OccursAt(s, t, i) {
        var i :| OccursAt(s, t, i);
        assert i != 0;
        assert s[1..][i - 1..i - 1 + |t|] == s[i..i + |t|];
        assert OccursAt(s[1..], t, i - 1);
      }
    }
  }

  /** Every string includes the empty string: an empty search term matches. */
  lemma ContainsEmpty(s: string)
    ensures Contains(s, "")
  {
    assert StartsWith(s, "");
  }

  /** The characters ECMAScript's `trim` removes: WhiteSpace and LineTerminator. */
  predicate IsJsWhitespace(c: char) {
    c == '\U{0009}' || c == '\U{000A}' || c == '\U{000B}' || c == '\U{000C}' || c == '\U{000D}'
    || c == '\U{0020}' || c == '\U{00A0}' || c == '\U{1680}'
    || ('\U{2000}' <= c <= '\U{200A}')
    || c == '\U{2028}' || c == '\U{2029}' || c == '\U{202F}' || c == '\U{205F}'
    || c == '\U{3000}' || c == '\U{FEFF}'
  }

  function TrimStart(s: string): (r: string)
    decreases |s|
  {
    if |s| > 0 && IsJsWhitespace(s[0]) then TrimStart(s[1..]) else s
  }

  function TrimEnd(s: string): (r: string)
    decreases |s|
  {
    if |s| > 0 && IsJsWhitespace(s[|s| - 1]) then TrimEnd(s[..|s| - 1]) else s
  }

  /** `s.trim()`. */
  function Trim(s: string): string {
    TrimEnd(TrimStart(s))
  }

  predicate IsBlank(s: string) {
    forall i :: 0 <= i < |s| ==> IsJsWhitespace(s[i])
  }

  lemma {:induction false} TrimStartBlank(s: string)
    ensures TrimStart(s) == [] <==> IsBlank(s)
    decreases |s|
  {
    if |s| > 0 && IsJsWhitespace(s[0]) {
      TrimStartBlank(s[1..]);
      if IsBlank(s[1..]) {
        forall i | 0 <= i < |s| ensures IsJsWhitespace(s[i]) {
          if i > 0 { assert s[i] == s[1..][i - 1]; }
        }
      }
      if IsBlank(s) {
        forall i | 0 <= i < |s[1..]| ensures IsJsWhitespace(s[1..][i]) {
          assert s[1..][i] == s[i + 1];
        }
      }
    }
  }

  lemma {:induction false} TrimEndKeepsSolidStart(s: string)
    requires |s| > 0 && !IsJsWhitespace(s[0])
    ensures TrimEnd(s) != []
    decreases |s|
  {
    if |s| > 1 && IsJsWhitespace(s[|s| - 1]) {
      TrimEndKeepsSolidStart(s[..|s| - 1]);
    }
  }

  /** `!s.trim()` holds exactly when every character of `s` is white space. */
  lemma TrimEmptyIffBlank(s: string)
    ensures Trim(s) == [] <==> IsBlank(s)
  {
    TrimStartBlank(s);
    TrimStartSolid(s);
    if TrimStart(s) != [] {
      TrimEndKeepsSolidStart(TrimStart(s));
    }
  }

  lemma {:induction false} TrimStartSolid(s: string)
    ensures TrimStart(s) != [] ==> !IsJsWhitespace(TrimStart(s)[0])
    decreases |s|
  {
    if |s| > 0 && IsJsWhitespace(s[0]) {
      TrimStartSolid(s[1..]);
    }
  }

  /** The order used to sort by name: `localeCompare(a, b) <= 0`, taken as
      code-unit lexicographic order. */
  predicate LexLeq(a: string, b: string)
    decreases |a|
  {
    |a| == 0 || (|b| > 0 && (a[0] < b[0] || (a[0] == b[0] && LexLeq(a[1..], b[1..]))))
  }

  lemma {:induction false} LexLeqTotal(a: string, b: string)
    ensures LexLeq(a, b) || LexLeq(b, a)
    decreases |a|
  {
    if |a| > 0 && |b| > 0 && a[0] == b[0] {
      LexLeqTotal(a[1..], b[1..]);
    }
  }

  lemma {:induction false} LexLeqTransitive(a: string, b: string, c: string)
    requires LexLeq(a, b) && LexLeq(b, c)
    ensures LexLeq(a, c)
    decreases |a|
  {
    if |a| > 0 && a[0] == b[0] && b[0] == c[0] {
      LexLeqTransitive(a[1..], b[1..], c[1..]);
    }
  }

  /** `b.toString()` for a boolean. */
  function BoolText(b: bool): string {
    if b then "true" else "false"
  }
}

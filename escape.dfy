/** `escapeHtml`: every `&`, `<`, `>`, `"` and `'` of the name is replaced by
    its character reference before the name is spliced into markup. */
module Escape {

  /** The characters matched by the class `[&<"'>]`. */
  predicate IsSpecial(c: char) {
    c == '&' || c == '<' || c == '>' || c == '"' || c == '\''
  }

  /** The replacement table: each special character's entity; every other
      character stands for itself. */
  function EscapeChar(c: char): (r: string)
    ensures IsSpecial(c) <==> r != [c]
    ensures IsSpecial(c) ==> |r| > 1 && r[0] == '&' && r[|r| - 1] == ';'
  {
    match c
    case '&' => "&amp;"
    case '<' => "&lt;"
    case '>' => "&gt;"
    case '"' => "&quot;"
    case '\'' => "&#39;"
    case _ => [c]
  }

  /** `unsafe.replace(/[&<"'>]/g, ...)`: the global replace rewrites the string
      one character at a time, left to right. */
  function EscapeHtml(s: string): (r: string)
    ensures |r| >= |s|
  {
    if s == [] then [] else EscapeChar(s[0]) + EscapeHtml(s[1..])
  }

  /** The text at hand starts with one of the five entities. */
  predicate StartsWithEntity(t: string) {
    "&amp;" <= t || "&lt;" <= t || "&gt;" <= t || "&quot;" <= t || "&#39;" <= t
  }

  /** Markup that is safe to splice in as text: no raw `<`, `>`, `"` or `'`,
      and every `&` starts one of the five entities. */
  predicate SafeHtml(t: string) {
    forall i :: 0 <= i < |t| ==>
      (IsSpecial(t[i]) ==> t[i] == '&') &&
      (t[i] == '&' ==> StartsWithEntity(t[i..]))
  }

  /** The decoder for the five entities, the partner of EscapeHtml: an entity
      becomes its character, any other character stands for itself. */
  function Unescape(t: string): string
    decreases |t|
  {
    if t == [] then []
    else if "&amp;" <= t then "&" + Unescape(t[5..])
    else if "&lt;" <= t then "<" + Unescape(t[4..])
    else if "&gt;" <= t then ">" + Unescape(t[4..])
    else if "&quot;" <= t then "\"" + Unescape(t[6..])
    else if "&#39;" <= t then "'" + Unescape(t[5..])
    else [t[0]] + Unescape(t[1..])
  }

  /** Escaping distributes over concatenation. */
  lemma {:induction false} EscapeConcat(a: string, b: string)
    ensures EscapeHtml(a + b) == EscapeHtml(a) + EscapeHtml(b)
  {
    if a == [] {
      assert a + b == b;
    } else {
      assert (a + b)[1..] == a[1..] + b;
      EscapeConcat(a[1..], b);
    }
  }

  /** Each character of the input is replaced, in place, by its table entry:
      the entity for a special character, itself for any other. */
  lemma {:induction false} EscapeAt(s: string, i: nat)
    requires i < |s|
    ensures EscapeHtml(s) == EscapeHtml(s[..i]) + EscapeChar(s[i]) + EscapeHtml(s[i + 1..])
  {
    assert s == s[..i] + s[i..];
    EscapeConcat(s[..i], s[i..]);
    assert s[i..][0] == s[i] && s[i..][1..] == s[i + 1..];
    assert EscapeHtml(s[i..]) == EscapeChar(s[i]) + EscapeHtml(s[i + 1..]);
  }

  /** Escaping leaves a string unchanged exactly when it holds none of the
      five special characters. */
  lemma {:induction false} EscapeIdentityIff(s: string)
    ensures EscapeHtml(s) == s <==> forall i :: 0 <= i < |s| ==> !IsSpecial(s[i])
  {
    if s != [] {
      EscapeIdentityIff(s[1..]);
      var e := EscapeChar(s[0]);
      if IsSpecial(s[0]) {
        assert |e| > 1;
        assert |EscapeHtml(s)| > |s|;
      } else {
        assert e == [s[0]];
        if forall i :: 0 <= i < |s| ==> !IsSpecial(s[i]) {
          assert forall i :: 0 <= i < |s[1..]| ==> !IsSpecial(s[1..][i]) by {
            forall i | 0 <= i < |s[1..]| ensures !IsSpecial(s[1..][i]) {
              assert s[1..][i] == s[i + 1];
            }
          }
        } else {
          var k :| 0 <= k < |s| && IsSpecial(s[k]);
          assert k > 0 && s[1..][k - 1] == s[k];
          assert EscapeHtml(s[1..]) != s[1..];
          assert EscapeHtml(s) == [s[0]] + EscapeHtml(s[1..]);
          assert EscapeHtml(s)[1..] == EscapeHtml(s[1..]);
        }
      }
    }
  }

  lemma SafeConcat(a: string, b: string)
    requires SafeHtml(a) && SafeHtml(b)
    ensures SafeHtml(a + b)
  {
    forall i | 0 <= i < |a + b|
      ensures (IsSpecial((a + b)[i]) ==> (a + b)[i] == '&') &&
              ((a + b)[i] == '&' ==> StartsWithEntity((a + b)[i..]))
    {
      if i < |a| {
        assert (a + b)[i..] == a[i..] + b;
        assert (a + b)[i] == a[i];
      } else {
        assert (a + b)[i..] == b[i - |a|..];
        assert (a + b)[i] == b[i - |a|];
      }
    }
  }

  lemma SafeEscapeChar(c: char)
    ensures SafeHtml(EscapeChar(c))
  {
    var e := EscapeChar(c);
    if IsSpecial(c) {
      assert e[0..] == e;
    }
  }

  /** The output of escaping is safe markup: no raw `<`, `>`, `"` or `'`, and
      every `&` starts one of the five entities. */
  lemma {:induction false} EscapeIsSafe(s: string)
    ensures SafeHtml(EscapeHtml(s))
  {
    if s != [] {
      EscapeIsSafe(s[1..]);
      SafeEscapeChar(s[0]);
      SafeConcat(EscapeChar(s[0]), EscapeHtml(s[1..]));
    }
  }

  /** Decoding the head entry of an escaped string gives back its character. */
  lemma UnescapeEntry(c: char, rest: string)
    ensures Unescape(EscapeChar(c) + rest) == [c] + Unescape(rest)
  {
    var t := EscapeChar(c) + rest;
    var e := EscapeChar(c);
    assert t[..|e|] == e;
    assert t[|e|..] == rest;
    if !IsSpecial(c) {
      assert t[0] == c && c != '&';
      assert t[1..] == rest;
    } else if c == '<' || c == '>' {
      assert t[1] != 'a';
    } else if c == '"' {
      assert t[1] != 'a' && t[1] != 'l' && t[1] != 'g';
    } else if c == '\'' {
      assert t[1] == '#';
    }
  }

  /** Decoding the five entities recovers the original input. */
  lemma {:induction false} UnescapeEscape(s: string)
    ensures Unescape(EscapeHtml(s)) == s
  {
    if s != [] {
      UnescapeEscape(s[1..]);
      UnescapeEntry(s[0], EscapeHtml(s[1..]));
      assert [s[0]] + s[1..] == s;
    }
  }

  lemma SafeSuffix(t: string, k: nat)
    requires SafeHtml(t) && k <= |t|
    ensures SafeHtml(t[k..])
  {
    forall i | 0 <= i < |t[k..]|
      ensures (IsSpecial(t[k..][i]) ==> t[k..][i] == '&') &&
              (t[k..][i] == '&' ==> StartsWithEntity(t[k..][i..]))
    {
      assert t[k..][i] == t[k + i];
      assert t[k..][i..] == t[k + i..];
    }
  }

  /** Safe markup starts with the escaped form of some character. */
  lemma SafeHead(t: string)
    requires SafeHtml(t) && t != []
    ensures exists c :: EscapeChar(c) <= t
  {
    assert t[0..] == t;
    if "&amp;" <= t { assert EscapeChar('&') <= t; }
    else if "&lt;" <= t { assert EscapeChar('<') <= t; }
    else if "&gt;" <= t { assert EscapeChar('>') <= t; }
    else if "&quot;" <= t { assert EscapeChar('"') <= t; }
    else if "&#39;" <= t { assert EscapeChar('\'') <= t; }
    else { assert EscapeChar(t[0]) <= t; }
  }

  /** On safe markup escaping undoes decoding, so the two are inverse
      bijections between all strings and safe markup. */
  lemma {:induction false} EscapeUnescape(t: string)
    requires SafeHtml(t)
    ensures EscapeHtml(Unescape(t)) == t
  {
    if t != [] {
      SafeHead(t);
      var c :| EscapeChar(c) <= t;
      var n := |EscapeChar(c)|;
      assert t == EscapeChar(c) + t[n..];
      UnescapeEntry(c, t[n..]);
      SafeSuffix(t, n);
      EscapeUnescape(t[n..]);
      var u := [c] + Unescape(t[n..]);
      assert u[0] == c && u[1..] == Unescape(t[n..]);
    }
  }
}

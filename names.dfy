/** The name form's check: the submitted value is trimmed, then tested
    against the anchored pattern `^[A-Za-z\s]{5,20}$`. */
module Names {

  /** The white space and line terminator code points of ECMAScript, in
      order. The same set is stripped by `String.prototype.trim` and matched
      by `\s`, so one table serves both. */
  const SpaceChars: string :=
    "\t\n\U{000B}\U{000C}\r \U{00A0}\U{1680}\U{2000}\U{2001}\U{2002}\U{2003}\U{2004}\U{2005}\U{2006}\U{2007}\U{2008}\U{2009}\U{200A}\U{2028}\U{2029}\U{202F}\U{205F}\U{3000}\U{FEFF}"

  /** `c` occurs in `chars`, looked up one entry at a time. */
  predicate Listed(c: char, chars: string) {
    chars != [] && (chars[0] == c || Listed(c, chars[1..]))
  }

  lemma {:induction false} ListedIff(c: char, chars: string)
    ensures Listed(c, chars) <==> c in chars
  {
    if chars != [] {
      ListedIff(c, chars[1..]);
      assert chars == [chars[0]] + chars[1..];
    }
  }

  predicate IsSpace(c: char) {
    Listed(c, SpaceChars)
  }

  /** The ECMAScript white space and line terminator code points: tab
      through carriage return, space, no-break space, ogham space mark, the
      en quad through hair space, the line and paragraph separators, the
      narrow no-break space, the medium mathematical space, the ideographic
      space and the byte order mark. */
  predicate SpaceCode(n: int) {
    (0x09 <= n <= 0x0D) || n == 0x20 || n == 0xA0 || n == 0x1680 ||
    (0x2000 <= n <= 0x200A) || n == 0x2028 || n == 0x2029 || n == 0x202F ||
    n == 0x205F || n == 0x3000 || n == 0xFEFF
  }

  lemma TableCodes()
    ensures forall i :: 0 <= i < |SpaceChars| ==> SpaceCode(SpaceChars[i] as int)
  {
  }

  lemma TablePositions()
    ensures forall i :: 0 <= i < 5 ==> SpaceChars[i] as int == 0x09 + i
    ensures forall i :: 8 <= i < 19 ==> SpaceChars[i] as int == 0x2000 + i - 8
    ensures SpaceChars[5] as int == 0x20 && SpaceChars[6] as int == 0xA0
    ensures SpaceChars[7] as int == 0x1680 && SpaceChars[19] as int == 0x2028
    ensures SpaceChars[20] as int == 0x2029 && SpaceChars[21] as int == 0x202F
    ensures SpaceChars[22] as int == 0x205F && SpaceChars[23] as int == 0x3000
    ensures SpaceChars[24] as int == 0xFEFF
  {
  }

  lemma SpaceCodes(c: char)
    requires IsSpace(c)
    ensures SpaceCode(c as int)
  {
    ListedIff(c, SpaceChars);
    TableCodes();
    var i :| 0 <= i < |SpaceChars| && SpaceChars[i] == c;
  }

  lemma CodesSpace(c: char)
    requires SpaceCode(c as int)
    ensures IsSpace(c)
  {
    var n := c as int;
    var i := if n <= 0x0D then n - 0x09 else if n == 0x20 then 5 else if n == 0xA0 then 6
      else if n == 0x1680 then 7 else if n <= 0x200A then n - 0x2000 + 8
      else if n == 0x2028 then 19 else if n == 0x2029 then 20 else if n == 0x202F then 21
      else if n == 0x205F then 22 else if n == 0x3000 then 23 else 24;
    TablePositions();
    assert SpaceChars[i] == c;
    ListedIff(c, SpaceChars);
  }

  /** The table holds exactly the ECMAScript white space code points. */
  lemma SpaceCodesIff(c: char)
    ensures IsSpace(c) <==> SpaceCode(c as int)
  {
    if IsSpace(c) {
      SpaceCodes(c);
    }
    if SpaceCode(c as int) {
      CodesSpace(c);
    }
  }

  /** No visible ASCII character (`!` to `~`), so no letter and none of the
      markup characters, is white space. */
  lemma NotSpace(c: char)
    requires '!' <= c <= '~'
    ensures !IsSpace(c)
  {
    if IsSpace(c) {
      SpaceCodes(c);
    }
  }

  predicate IsAsciiLetter(c: char) {
    'A' <= c <= 'Z' || 'a' <= c <= 'z'
  }

  /** The character class `[A-Za-z\s]`. */
  predicate InNameClass(c: char) {
    IsAsciiLetter(c) || IsSpace(c)
  }

  predicate AllSpace(s: string) {
    forall i :: 0 <= i < |s| ==> IsSpace(s[i])
  }

  predicate AllInNameClass(s: string) {
    forall i :: 0 <= i < |s| ==> InNameClass(s[i])
  }

  /** The index of the first character at or after `i` that is not white
      space, or `|s|` when there is none. */
  function SkipSpaces(s: string, i: nat): (a: nat)
    requires i <= |s|
    ensures i <= a <= |s|
    decreases |s| - i
  {
    if i < |s| && IsSpace(s[i]) then SkipSpaces(s, i + 1) else i
  }

  /** Scanning back from `j`, but not past `lo`: the index just after the
      last character that is not white space, or `lo` when there is none. */
  function SkipSpacesBack(s: string, lo: nat, j: nat): (b: nat)
    requires lo <= j <= |s|
    ensures lo <= b <= j
  {
    if lo < j && IsSpace(s[j - 1]) then SkipSpacesBack(s, lo, j - 1) else j
  }

  /** What the forward scan skips is white space, and it stops at a
      character that is not. */
  lemma {:induction false} SkipSpacesSpec(s: string, i: nat)
    requires i <= |s|
    ensures forall k :: i <= k < SkipSpaces(s, i) ==> IsSpace(s[k])
    ensures SkipSpaces(s, i) < |s| ==> !IsSpace(s[SkipSpaces(s, i)])
    decreases |s| - i
  {
    if i < |s| && IsSpace(s[i]) {
      SkipSpacesSpec(s, i + 1);
    }
  }

  /** What the backward scan skips is white space, and it stops after a
      character that is not. */
  lemma {:induction false} SkipSpacesBackSpec(s: string, lo: nat, j: nat)
    requires lo <= j <= |s|
    ensures forall k :: SkipSpacesBack(s, lo, j) <= k < j ==> IsSpace(s[k])
    ensures lo < SkipSpacesBack(s, lo, j) ==> !IsSpace(s[SkipSpacesBack(s, lo, j) - 1])
  {
    if lo < j && IsSpace(s[j - 1]) {
      SkipSpacesBackSpec(s, lo, j - 1);
    }
  }

  /** The properties above determine where the forward scan stops. */
  lemma {:induction false} SkipSpacesUnique(s: string, i: nat, a: nat)
    requires i <= a <= |s| && (forall k :: i <= k < a ==> IsSpace(s[k]))
    requires a < |s| ==> !IsSpace(s[a])
    ensures SkipSpaces(s, i) == a
    decreases a - i
  {
    if i < a {
      SkipSpacesUnique(s, i + 1, a);
    }
  }

  /** The properties above determine where the backward scan stops. */
  lemma {:induction false} SkipSpacesBackUnique(s: string, lo: nat, j: nat, b: nat)
    requires lo <= b <= j <= |s| && (forall k :: b <= k < j ==> IsSpace(s[k]))
    requires lo < b ==> !IsSpace(s[b - 1])
    ensures SkipSpacesBack(s, lo, j) == b
    decreases j - b
  {
    if b < j {
      SkipSpacesBackUnique(s, lo, j - 1, b);
    }
  }

  /** `String.prototype.trim`: the text from the first character that is not
      white space to the last one. */
  function Trim(s: string): string {
    var a := SkipSpaces(s, 0);
    s[a..SkipSpacesBack(s, a, |s|)]
  }

  /** When something is left after the leading white space, the backward scan
      stops after the first character that is kept. */
  lemma TrimKeepsSome(s: string)
    requires SkipSpaces(s, 0) < |s|
    ensures SkipSpaces(s, 0) < SkipSpacesBack(s, SkipSpaces(s, 0), |s|)
  {
    var a := SkipSpaces(s, 0);
    SkipSpacesSpec(s, 0);
    SkipSpacesBackSpec(s, a, |s|);
  }

  /** The trimmed value is a slice of `s` with only white space on either
      side of it. */
  lemma TrimIsSlice(s: string)
    ensures exists i, j :: 0 <= i <= j <= |s| && Trim(s) == s[i..j] &&
                          AllSpace(s[..i]) && AllSpace(s[j..])
  {
    var a := SkipSpaces(s, 0);
    var b := SkipSpacesBack(s, a, |s|);
    SkipSpacesSpec(s, 0);
    SkipSpacesBackSpec(s, a, |s|);
    assert Trim(s) == s[a..b] && AllSpace(s[..a]) && AllSpace(s[b..]);
  }

  /** The trimmed value has no white space at either end. */
  lemma TrimEnds(s: string)
    ensures Trim(s) == [] || (!IsSpace(Trim(s)[0]) && !IsSpace(Trim(s)[|Trim(s)| - 1]))
  {
    var a := SkipSpaces(s, 0);
    var b := SkipSpacesBack(s, a, |s|);
    if a < b {
      SkipSpacesSpec(s, 0);
      SkipSpacesBackSpec(s, a, |s|);
      assert Trim(s)[0] == s[a] && Trim(s)[|Trim(s)| - 1] == s[b - 1];
    }
  }

  /** Only an all-white-space value trims to the empty string. */
  lemma TrimEmptyIff(s: string)
    ensures Trim(s) == [] <==> AllSpace(s)
  {
    var a := SkipSpaces(s, 0);
    SkipSpacesSpec(s, 0);
    if a < |s| {
      TrimKeepsSome(s);
    }
  }

  /** Trimming twice is trimming once. */
  lemma TrimIdempotent(s: string)
    ensures Trim(Trim(s)) == Trim(s)
  {
    var t := Trim(s);
    TrimEnds(s);
    if t != [] {
      SkipSpacesUnique(t, 0, 0);
      SkipSpacesBackUnique(t, 0, |t|, |t|);
      assert t[0..|t|] == t;
    }
  }

  /** Anchored match of the class `[A-Za-z\s]` repeated `lo` to `hi` times
      against the whole of `s`, consuming one character per step the way a
      regular-expression engine runs a counted repetition. */
  function MatchCounted(s: string, lo: nat, hi: nat): bool
  {
    if s == [] then lo == 0
    else hi > 0 && InNameClass(s[0]) && MatchCounted(s[1..], if lo > 0 then lo - 1 else 0, hi - 1)
  }

  /** The counted repetition matches exactly the strings of `lo` to `hi`
      characters that are all in the class. */
  lemma {:induction false} MatchCountedIff(s: string, lo: nat, hi: nat)
    ensures MatchCounted(s, lo, hi) <==> lo <= |s| <= hi && AllInNameClass(s)
  {
    if s != [] {
      MatchCountedIff(s[1..], if lo > 0 then lo - 1 else 0, if hi > 0 then hi - 1 else 0);
      if hi > 0 {
        assert AllInNameClass(s) <==> InNameClass(s[0]) && AllInNameClass(s[1..]) by {
          if InNameClass(s[0]) && AllInNameClass(s[1..]) {
            forall i | 0 <= i < |s| ensures InNameClass(s[i]) {
              if i > 0 { assert s[i] == s[1..][i - 1]; }
            }
          }
        }
      }
    }
  }

  const MinNameLength: nat := 5
  const MaxNameLength: nat := 20

  /** `/^[A-Za-z\s]{5,20}$/.test(name)`. */
  predicate NamePattern(name: string) {
    MatchCounted(name, MinNameLength, MaxNameLength)
  }

  /** The fixed text shown under the form when the name is refused. It speaks
      of five letters; the pattern allows five to twenty letters and spaces. */
  const NameErrorMessage: string := "Please enter your first name (5 letters)."

  datatype Validation = Accepted(name: string) | Rejected(message: string)

  /** The submit handler's decision: the trimmed value when it matches the
      pattern, the fixed error text otherwise. */
  function ValidateName(raw: string): (v: Validation)
    ensures v.Accepted? <==> MinNameLength <= |Trim(raw)| <= MaxNameLength && AllInNameClass(Trim(raw))
    ensures v.Accepted? ==> v.name == Trim(raw)
    ensures v.Rejected? ==> v.message == NameErrorMessage
  {
    var name := Trim(raw);
    MatchCountedIff(name, MinNameLength, MaxNameLength);
    if NamePattern(name) then Accepted(name) else Rejected(NameErrorMessage)
  }

  /** A value of nothing but white space trims to empty and is refused. */
  lemma BlankNameRejected(raw: string)
    requires AllSpace(raw)
    ensures ValidateName(raw) == Rejected(NameErrorMessage)
  {
    TrimEmptyIff(raw);
  }

  /** A name as the question shows it: five to twenty letters and white
      space, with a letter at each end. */
  predicate WellFormedName(n: string) {
    MinNameLength <= |n| <= MaxNameLength && AllInNameClass(n) &&
    IsAsciiLetter(n[0]) && IsAsciiLetter(n[|n| - 1])
  }

  /** Every accepted name is well formed. */
  lemma AcceptedNameWellFormed(raw: string)
    requires ValidateName(raw).Accepted?
    ensures WellFormedName(ValidateName(raw).name)
  {
    var n := Trim(raw);
    TrimEnds(raw);
    assert InNameClass(n[0]);
    assert InNameClass(n[|n| - 1]);
  }

  /** The well-formed names are exactly the values the check accepts
      unchanged; in particular an accepted name, submitted again, is accepted
      as it is. */
  lemma WellFormedNameIff(n: string)
    ensures WellFormedName(n) <==> ValidateName(n) == Accepted(n)
  {
    if WellFormedName(n) {
      NotSpace(n[0]);
      NotSpace(n[|n| - 1]);
      SkipSpacesUnique(n, 0, 0);
      SkipSpacesBackUnique(n, 0, |n|, |n|);
      assert n[0..|n|] == n;
    }
    if ValidateName(n) == Accepted(n) {
      AcceptedNameWellFormed(n);
    }
  }

  /** A four-letter name is refused. */
  lemma ShortNameRejected()
    ensures ValidateName("Anna") == Rejected(NameErrorMessage)
  {
    assert |Trim("Anna")| <= 4;
  }

  /** A value holding any of the markup characters `&`, `<`, `>`, `"` or `'`
      after trimming is refused, so such a name never reaches the question. */
  lemma MarkupRejected(raw: string, i: nat)
    requires i < |Trim(raw)| && Trim(raw)[i] in "&<>\"'"
    ensures ValidateName(raw) == Rejected(NameErrorMessage)
  {
    NotSpace(Trim(raw)[i]);
    assert !InNameClass(Trim(raw)[i]);
  }

  /** Surrounding white space never changes the decision. */
  lemma {:induction false} PaddingIrrelevant(pad1: string, raw: string, pad2: string)
    requires AllSpace(pad1) && AllSpace(pad2)
    ensures ValidateName(pad1 + raw + pad2) == ValidateName(raw)
  {
    TrimPadded(pad1, raw, pad2);
  }

  /** White space around a value is removed by the trim. */
  lemma TrimPadded(pad1: string, s: string, pad2: string)
    requires AllSpace(pad1) && AllSpace(pad2)
    ensures Trim(pad1 + s + pad2) == Trim(s)
  {
    if SkipSpaces(s, 0) < |s| {
      var a := SkipSpaces(s, 0);
      TrimKeepsSome(s);
      StartOfPadded(pad1, s, pad2);
      EndOfPadded(pad1, s, pad2, a);
      MiddleSlice(pad1, s, pad2, a, SkipSpacesBack(s, a, |s|));
    } else {
      BlankPadded(pad1, s, pad2);
    }
  }

  lemma BlankPadded(pad1: string, s: string, pad2: string)
    requires AllSpace(pad1) && AllSpace(pad2) && SkipSpaces(s, 0) == |s|
    ensures Trim(pad1 + s + pad2) == [] == Trim(s)
  {
    var u := pad1 + s + pad2;
    SkipSpacesSpec(s, 0);
    forall k | 0 <= k < |u| ensures IsSpace(u[k]) {
      if k < |pad1| {
        assert u[k] == pad1[k];
      } else if k < |pad1| + |s| {
        assert u[k] == s[k - |pad1|];
      } else {
        assert u[k] == pad2[k - |pad1| - |s|];
      }
    }
    SkipSpacesUnique(u, 0, |u|);
  }

  /** The forward scan over the padded value stops at the same character. */
  lemma StartOfPadded(pad1: string, s: string, pad2: string)
    requires AllSpace(pad1) && SkipSpaces(s, 0) < |s|
    ensures SkipSpaces(pad1 + s + pad2, 0) == |pad1| + SkipSpaces(s, 0)
  {
    var u := pad1 + s + pad2;
    var a := SkipSpaces(s, 0);
    SkipSpacesSpec(s, 0);
    forall k | 0 <= k < |pad1| + a ensures IsSpace(u[k]) {
      if k < |pad1| { assert u[k] == pad1[k]; } else { assert u[k] == s[k - |pad1|]; }
    }
    assert u[|pad1| + a] == s[a];
    SkipSpacesUnique(u, 0, |pad1| + a);
  }

  /** The backward scan over the padded value stops after the same
      character. */
  lemma EndOfPadded(pad1: string, s: string, pad2: string, a: nat)
    requires AllSpace(pad2) && a == SkipSpaces(s, 0) < |s|
    ensures |pad1| + a <= |pad1 + s + pad2|
    ensures SkipSpacesBack(pad1 + s + pad2, |pad1| + a, |pad1 + s + pad2|) ==
            |pad1| + SkipSpacesBack(s, a, |s|)
  {
    var u := pad1 + s + pad2;
    var b := SkipSpacesBack(s, a, |s|);
    TrimKeepsSome(s);
    SkipSpacesBackSpec(s, a, |s|);
    forall k | |pad1| + b <= k < |u| ensures IsSpace(u[k]) {
      if k < |pad1| + |s| { assert u[k] == s[k - |pad1|]; } else { assert u[k] == pad2[k - |pad1| - |s|]; }
    }
    assert u[|pad1| + b - 1] == s[b - 1];
    SkipSpacesBackUnique(u, |pad1| + a, |u|, |pad1| + b);
  }

  lemma MiddleSlice(p: string, s: string, q: string, i: nat, j: nat)
    requires i <= j <= |s|
    ensures (p + s + q)[|p| + i..|p| + j] == s[i..j]
  {
    var u := p + s + q;
    forall k | 0 <= k < j - i ensures u[|p| + i..|p| + j][k] == s[i..j][k] {
      assert u[|p| + i + k] == s[i + k];
    }
  }
}

/** White space: Unicode trimming as strings.TrimSpace does it, and the Java notions of trim, blank and length. */
module Text {

  predicate IsSpace(c: char) {
    || '\t' <= c <= '\r' || c == ' ' || c == '\U{85}' || c == '\U{A0}' || c == '\U{1680}'
    || '\U{2000}' <= c <= '\U{200A}' || c == '\U{2028}' || c == '\U{2029}' || c == '\U{202F}'
    || c == '\U{205F}' || c == '\U{3000}'
  }

  /** The first position from `i` on that holds no white space. */
  function SkipSpace(s: string, i: nat): (j: nat)
    requires i <= |s|
    ensures i <= j <= |s| && (j < |s| ==> !IsSpace(s[j]))
    decreases |s| - i
  {
    if i < |s| && IsSpace(s[i]) then SkipSpace(s, i + 1) else i
  }

  /** The end of the text before `j`, not going back beyond `i`. */
  function DropSpace(s: string, i: nat, j: nat): (k: nat)
    requires i <= j <= |s|
    ensures i <= k <= j && (k > i ==> !IsSpace(s[k - 1]))
    ensures i < j && !IsSpace(s[i]) ==> k > i
  {
    if j > i && IsSpace(s[j - 1]) then DropSpace(s, i, j - 1) else j
  }

  /** A trimmed string has no white space at either end. */
  predicate Trimmed(s: string) {
    s != "" ==> !IsSpace(s[0]) && !IsSpace(s[|s| - 1])
  }

  function TrimSpace(s: string): (t: string)
    ensures Trimmed(t)
    ensures Trimmed(s) ==> t == s
  {
    var i := SkipSpace(s, 0);
    s[i..DropSpace(s, i, |s|)]
  }

  predicate IsBlank(s: string) { SkipSpace(s, 0) == |s| }

  lemma TrimmingKeepsText(s: string)
    requires !IsBlank(s)
    ensures TrimSpace(s) != "" && !IsBlank(TrimSpace(s))
  {
    var t := TrimSpace(s);
    assert !IsSpace(t[0]);
  }

  /** The first position from `i` on that is beyond the space character. */
  function SkipBlank(s: string, i: nat): (j: nat)
    requires i <= |s|
    ensures i <= j <= |s| && (j < |s| ==> s[j] > ' ')
    ensures i < |s| && s[i] > ' ' ==> j == i
    decreases |s| - i
  {
    if i < |s| && s[i] <= ' ' then SkipBlank(s, i + 1) else i
  }

  function DropBlank(s: string, i: nat, j: nat): (k: nat)
    requires i <= j <= |s|
    ensures i <= k <= j && (k > i ==> s[k - 1] > ' ')
    ensures i < j && s[j - 1] > ' ' ==> k == j
  {
    if j > i && s[j - 1] <= ' ' then DropBlank(s, i, j - 1) else j
  }

  /** String.trim: everything up to the space character goes. */
  function JavaTrim(s: string): (t: string)
    ensures t != "" ==> t[0] > ' ' && t[|t| - 1] > ' '
    ensures (s != "" ==> s[0] > ' ' && s[|s| - 1] > ' ') ==> t == s
  {
    var i := SkipBlank(s, 0);
    s[i..DropBlank(s, i, |s|)]
  }

  /** Character.isWhitespace, which leaves out the no-break spaces. */
  predicate JavaSpace(c: char) {
    || '\t' <= c <= '\r' || '\U{1C}' <= c <= ' ' || c == '\U{1680}'
    || ('\U{2000}' <= c <= '\U{200A}' && c != '\U{2007}') || c == '\U{2028}' || c == '\U{2029}' || c == '\U{205F}' || c == '\U{3000}'
  }

  predicate JavaBlank(s: string) { forall i :: 0 <= i < |s| ==> JavaSpace(s[i]) }

  /** String.length counts characters beyond the basic plane twice. */
  function JavaLength(s: string): nat {
    if s == "" then 0 else (if s[0] > '\U{FFFF}' then 2 else 1) + JavaLength(s[1..])
  }

  // ---- What trimming comes to -----------------------------------------------------------------

  /** The text from i to j, with nothing but space before and behind it and none at its own ends. */
  ghost predicate CutAt(space: char -> bool, s: string, t: string, i: nat, j: nat) {
    && i <= j <= |s| && t == s[i..j] && (i < j ==> !space(s[i]) && !space(s[j - 1]))
    && (forall k :: 0 <= k < i ==> space(s[k])) && (forall k :: j <= k < |s| ==> space(s[k]))
  }

  ghost predicate CutsTo(space: char -> bool, s: string, t: string) { exists i, j :: CutAt(space, s, t, i, j) }

  lemma OneCut(space: char -> bool, s: string, t: string, i: nat, j: nat, u: string, i': nat, j': nat)
    requires CutAt(space, s, t, i, j) && CutAt(space, s, u, i', j')
    ensures t == u
  {
    if i < j {
      assert i' <= i < j' && i' <= j - 1 < j';
      assert i == i' && j == j';
    }
  }

  lemma {:induction false} SkipsSpace(s: string, i: nat)
    requires i <= |s|
    ensures forall k :: i <= k < SkipSpace(s, i) ==> IsSpace(s[k])
    decreases |s| - i
  {
    if i < |s| && IsSpace(s[i]) { SkipsSpace(s, i + 1); }
  }

  lemma {:induction false} DropsSpace(s: string, i: nat, j: nat)
    requires i <= j <= |s|
    ensures forall k :: DropSpace(s, i, j) <= k < j ==> IsSpace(s[k])
  {
    if j > i && IsSpace(s[j - 1]) { DropsSpace(s, i, j - 1); }
  }

  /** Trimming takes away exactly the white space at both ends. */
  lemma TrimSpaceIff(s: string, t: string)
    ensures TrimSpace(s) == t <==> CutsTo(IsSpace, s, t)
  {
    var i := SkipSpace(s, 0);
    var j := DropSpace(s, i, |s|);
    SkipsSpace(s, 0);
    DropsSpace(s, i, |s|);
    CutsWhere(IsSpace, s, TrimSpace(s), i, j, t);
  }

  lemma CutsWhere(space: char -> bool, s: string, u: string, i: nat, j: nat, t: string)
    requires CutAt(space, s, u, i, j)
    ensures u == t <==> CutsTo(space, s, t)
  {
    if CutsTo(space, s, t) {
      var i', j' :| CutAt(space, s, t, i', j');
      OneCut(space, s, u, i, j, t, i', j');
    }
  }

  lemma {:induction false} SkipsBlank(s: string, i: nat)
    requires i <= |s|
    ensures forall k :: i <= k < SkipBlank(s, i) ==> s[k] <= ' '
    decreases |s| - i
  {
    if i < |s| && s[i] <= ' ' { SkipsBlank(s, i + 1); }
  }

  lemma {:induction false} DropsBlank(s: string, i: nat, j: nat)
    requires i <= j <= |s|
    ensures forall k :: DropBlank(s, i, j) <= k < j ==> s[k] <= ' '
  {
    if j > i && s[j - 1] <= ' ' { DropsBlank(s, i, j - 1); }
  }

  /** The Java way takes away exactly the characters up to the space at both ends. */
  lemma JavaTrimIff(s: string, t: string)
    ensures JavaTrim(s) == t <==> CutsTo((c: char) => c <= ' ', s, t)
  {
    var i := SkipBlank(s, 0);
    var j := DropBlank(s, i, |s|);
    SkipsBlank(s, 0);
    DropsBlank(s, i, |s|);
    CutsWhere((c: char) => c <= ' ', s, JavaTrim(s), i, j, t);
  }
}

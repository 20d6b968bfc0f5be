/** How option texts cross from the two JSON writers to the Java server's own scan, which undoes no escapes. */
module OptionScan {
  import opened Collections
  import opened Text

  /** The Go client and relays write with encoding/json, the Java relay with two replacements. */
  datatype Writer = GoJson | JavaJson

  // ---- Writing --------------------------------------------------------------------------------

  /** Characters a writer does not put down as they are. */
  predicate Special(w: Writer, c: char) {
    || c == '"' || c == '\\'
    || (w == GoJson && (c < ' ' || c == '<' || c == '>' || c == '&' || c == '\U{2028}' || c == '\U{2029}'))
  }

  function HexDigit(d: nat): char
    requires d < 16
  {
    if d < 10 then ('0' as int + d) as char else ('a' as int + d - 10) as char
  }

  function Hex4(v: nat): string {
    [HexDigit(v / 4096 % 16), HexDigit(v / 256 % 16), HexDigit(v / 16 % 16), HexDigit(v % 16)]
  }

  function Escape(w: Writer, c: char): string {
    if !Special(w, c) then [c]
    else if c == '"' then ['\\', '"']
    else if c == '\\' then ['\\', '\\']
    else if c == '\n' then "\\n"
    else if c == '\r' then "\\r"
    else if c == '\t' then "\\t"
    else if c == '\U{8}' then "\\b"
    else if c == '\U{C}' then "\\f"
    else "\\u" + Hex4(c as int)
  }

  function Escaped(w: Writer, s: string): string {
    if s == "" then "" else Escape(w, s[0]) + Escaped(w, s[1..])
  }

  predicate Printable(c: char) { c > ' ' && c != '"' && c != ']' }

  lemma HexIsPrintable(v: nat)
    ensures forall c :: c in Hex4(v) ==> Printable(c)
  {
    assert forall d: nat :: d < 16 ==> Printable(HexDigit(d));
  }

  /** An escape is longer than what it stands for, starts with a backslash and brings in no bracket; only that of a quote has a quote. */
  lemma EscapeShape(w: Writer, c: char)
    ensures var e := Escape(w, c);
      if Special(w, c) then |e| >= 2 && e[0] == '\\' && e[|e| - 1] > ' ' && Lacks(e, ']') && (!Lacks(e, '"') <==> c == '"') else e == [c]
  {
    HexIsPrintable(c as int);
    if Special(w, c) && c != '"' && c != '\\' && c !in {'\n', '\r', '\t', '\U{8}', '\U{C}'} {
      var h := Hex4(c as int);
      assert Printable(h[3]);
      assert ("\\u" + h)[5] == h[3];
    }
  }

  /** The elements of an array, each in quotes, commas between. */
  function Joined(xs: seq<string>): string
    decreases |xs|, 0
  {
    if xs == [] then "" else "\"" + xs[0] + "\"" + Rest(xs[1..])
  }

  function Rest(xs: seq<string>): string
    decreases |xs|, 1
  {
    if xs == [] then "" else "," + Joined(xs)
  }

  function EscapedAll(w: Writer, xs: seq<string>): (es: seq<string>)
    ensures |es| == |xs|
  {
    seq(|xs|, i requires 0 <= i < |xs| => Escaped(w, xs[i]))
  }

  // ---- Scanning -------------------------------------------------------------------------------

  predicate Lacks(s: string, c: char) { forall k :: 0 <= k < |s| ==> s[k] != c }

  function FindFrom(s: string, c: char, i: nat): (j: nat)
    requires i <= |s|
    ensures i <= j <= |s| && (j < |s| ==> s[j] == c) && forall k :: i <= k < j ==> s[k] != c
    decreases |s| - i
  {
    if i == |s| || s[i] == c then i else FindFrom(s, c, i + 1)
  }

  /** The first position of `c`, or the length when there is none. */
  function Find(s: string, c: char): (i: nat)
    ensures i <= |s| && (i < |s| ==> s[i] == c) && (forall k :: 0 <= k < i ==> s[k] != c)
    ensures i == |s| <==> Lacks(s, c)
  {
    FindFrom(s, c, 0)
  }

  function UpTo(s: string, c: char): string { s[..Find(s, c)] }

  function Kept(x: string): seq<string> { if JavaTrim(x) == "" then [] else [JavaTrim(x)] }

  /** What stands, from `i` on, between each odd quote and the next; `from` is where an open quote began. */
  function Pieces(keep: string -> seq<string>, arr: string, i: nat, from: Option<nat>): seq<string>
    requires i <= |arr| && (from.Some? ==> from.value <= i)
    decreases |arr| - i
  {
    if i == |arr| then []
    else if arr[i] != '"' then Pieces(keep, arr, i + 1, from)
    else
      match from
      case None => Pieces(keep, arr, i + 1, Some(i + 1))
      case Some(q) => keep(arr[q..i]) + Pieces(keep, arr, i + 1, None)
  }

  function Quoted(arr: string): seq<string> { Pieces(Kept, arr, 0, None) }

  /** The scan of the text behind the opening bracket: it ends at the first closing bracket, wherever that stands. */
  function Scan(text: string): seq<string> {
    if Lacks(text, ']') then [] else Quoted(UpTo(text, ']'))
  }

  method IndexOf(s: string, c: char, start: nat) returns (i: int)
    requires start <= |s|
    ensures i == -1 || (start <= i < |s| && s[i] == c)
    ensures forall k :: start <= k < (if i == -1 then |s| else i) ==> s[k] != c
  {
    i := start;
    while i < |s| && s[i] != c
      invariant start <= i <= |s|
      invariant forall k :: start <= k < i ==> s[k] != c
    {
      i := i + 1;
    }
    if i == |s| {
      return -1;
    }
  }

  /** The server's parsing of the list, from the opening bracket on. */
  method ParseStringArray(text: string) returns (out: seq<string>)
    ensures out == Scan(text)
  {
    var r := IndexOf(text, ']', 0);
    if r < 0 {
      return [];
    }
    FindsFirst(text, ']', r);
    out := BetweenQuotes(Kept, text[..r]);
  }

  method BetweenQuotes(keep: string -> seq<string>, arr: string) returns (out: seq<string>)
    ensures out == Pieces(keep, arr, 0, None)
  {
    out := [];
    var q := 0;
    while q < |arr|
      invariant q <= |arr| && Pieces(keep, arr, 0, None) == out + Pieces(keep, arr, q, None)
    {
      var q1 := IndexOf(arr, '"', q);
      if q1 < 0 {
        SkipPlain(keep, arr, q, |arr|, None);
        break;
      }
      SkipPlain(keep, arr, q, q1, None);
      var q2 := IndexOf(arr, '"', q1 + 1);
      if q2 < 0 {
        SkipPlain(keep, arr, q1 + 1, |arr|, Some(q1 + 1));
        break;
      }
      SkipPlain(keep, arr, q1 + 1, q2, Some(q1 + 1));
      Assoc(out, keep(arr[q1 + 1..q2]), Pieces(keep, arr, q2 + 1, None));
      out := out + keep(arr[q1 + 1..q2]);
      q := q2 + 1;
    }
  }

  lemma {:induction false} SkipPlain(keep: string -> seq<string>, arr: string, i: nat, j: nat, from: Option<nat>)
    requires i <= j <= |arr| && (from.Some? ==> from.value <= i) && forall k :: i <= k < j ==> arr[k] != '"'
    ensures Pieces(keep, arr, i, from) == Pieces(keep, arr, j, from)
    decreases j - i
  {
    if i < j { SkipPlain(keep, arr, i + 1, j, from); }
  }

  lemma FindsFirst(s: string, c: char, k: nat)
    requires k <= |s| && (forall j :: 0 <= j < k ==> s[j] != c) && (k < |s| ==> s[k] == c)
    ensures Find(s, c) == k
  {}

  lemma {:induction false} PiecesShift(keep: string -> seq<string>, a: string, y: string, i: nat, from: Option<nat>)
    requires i <= |y| && (from.Some? ==> from.value <= i)
    ensures Pieces(keep, a + y, |a| + i, if from.Some? then Some(|a| + from.value) else None) == Pieces(keep, y, i, from)
    decreases |y| - i
  {
    if i < |y| {
      if y[i] != '"' {
        PiecesShift(keep, a, y, i + 1, from);
      } else if from.None? {
        PiecesShift(keep, a, y, i + 1, Some(i + 1));
      } else {
        assert (a + y)[|a| + from.value..|a| + i] == y[from.value..i];
        PiecesShift(keep, a, y, i + 1, None);
      }
    }
  }

  // ---- What arrives ---------------------------------------------------------------------------

  /** The list as the Java server reads it. */
  function Survivors(w: Writer, xs: seq<string>): seq<string> { Scan(Joined(EscapedAll(w, xs)) + "]") }

  lemma FindInFront(a: string, b: string, c: char)
    ensures Find(a + b, c) == if Lacks(a, c) then |a| + Find(b, c) else Find(a, c)
  {
    FindsFirst(a + b, c, if Lacks(a, c) then |a| + Find(b, c) else Find(a, c));
  }

  /** What follows the array in the text does not matter. */
  lemma RestIsIgnored(w: Writer, xs: seq<string>, more: string)
    ensures Scan(Joined(EscapedAll(w, xs)) + "]" + more) == Survivors(w, xs)
  {
    var t := Joined(EscapedAll(w, xs)) + "]";
    assert t[|t| - 1] == ']';
    FindInFront(t, more, ']');
    assert (t + more)[..Find(t, ']')] == t[..Find(t, ']')];
  }

  /** Nothing that survives is blank, has white space at an end, or holds a quote. */
  ghost predicate Tidy(x: string) { x != "" && x[0] > ' ' && x[|x| - 1] > ' ' && Lacks(x, '"') }

  ghost predicate AllTidy(xs: seq<string>) { forall i :: 0 <= i < |xs| ==> Tidy(xs[i]) }

  ghost predicate NoneHolds(xs: seq<string>, c: char) { forall i :: 0 <= i < |xs| ==> Lacks(xs[i], c) }

  lemma TrimIsPart(s: string)
    ensures forall c :: Lacks(s, c) ==> Lacks(JavaTrim(s), c)
  {}

  lemma KeptIsTidy(x: string, c: char)
    requires Lacks(x, c) && Lacks(x, '"')
    ensures AllTidy(Kept(x)) && NoneHolds(Kept(x), c)
  {
    TrimIsPart(x);
  }

  ghost predicate KeepsTidy(keep: string -> seq<string>, c: char) {
    forall x {:trigger keep(x)} :: Lacks(x, '"') && Lacks(x, c) ==> AllTidy(keep(x)) && NoneHolds(keep(x), c)
  }

  lemma {:induction false} PiecesAreTidy(keep: string -> seq<string>, arr: string, c: char, i: nat, from: Option<nat>)
    requires KeepsTidy(keep, c) && Lacks(arr, c) && i <= |arr|
    requires from.Some? ==> from.value <= i && forall k :: from.value <= k < i ==> arr[k] != '"'
    ensures AllTidy(Pieces(keep, arr, i, from)) && NoneHolds(Pieces(keep, arr, i, from), c)
    decreases |arr| - i
  {
    if i < |arr| {
      if arr[i] != '"' {
        PiecesAreTidy(keep, arr, c, i + 1, from);
      } else if from.None? {
        PiecesAreTidy(keep, arr, c, i + 1, Some(i + 1));
      } else {
        PiecesAreTidy(keep, arr, c, i + 1, None);
        var x := arr[from.value..i];
        assert Lacks(x, '"') && Lacks(x, c);
        assert AllTidy(keep(x)) && NoneHolds(keep(x), c);
      }
    }
  }

  lemma KeptKeepsTidy(c: char)
    ensures KeepsTidy(Kept, c)
  {
    forall x: string {:trigger Kept(x)} | Lacks(x, '"') && Lacks(x, c) ensures AllTidy(Kept(x)) && NoneHolds(Kept(x), c) {
      KeptIsTidy(x, c);
    }
  }

  lemma SurvivorsAreTidy(w: Writer, xs: seq<string>)
    ensures AllTidy(Survivors(w, xs)) && NoneHolds(Survivors(w, xs), ']')
  {
    var t := Joined(EscapedAll(w, xs)) + "]";
    KeptKeepsTidy(']');
    PiecesAreTidy(Kept, UpTo(t, ']'), ']', 0, None);
  }

  function KeptAll(xs: seq<string>): seq<string> { if xs == [] then [] else Kept(xs[0]) + KeptAll(xs[1..]) }

  /** The first element that holds a closing bracket, or the number of elements. */
  function FirstBracket(xs: seq<string>): (m: nat)
    ensures m <= |xs| && NoneHolds(xs[..m], ']') && (m < |xs| ==> !Lacks(xs[m], ']'))
  {
    if xs == [] || !Lacks(xs[0], ']') then 0
    else
      var m := FirstBracket(xs[1..]);
      assert xs[..m + 1] == [xs[0]] + xs[1..][..m];
      m + 1
  }

  lemma OpenQuote(keep: string -> seq<string>, p: string)
    requires Lacks(p, '"')
    ensures Pieces(keep, "\"" + p, 0, None) == []
  {
    var t := "\"" + p;
    assert Pieces(keep, t, 0, None) == Pieces(keep, t, 1, Some(1));
    SkipPlain(keep, t, 1, |t|, Some(1));
  }

  lemma ClosedQuote(keep: string -> seq<string>, x: string, y: string)
    requires Lacks(x, '"')
    ensures Pieces(keep, "\"" + x + "\"" + y, 0, None) == keep(x) + Pieces(keep, y, 0, None)
  {
    var a := "\"" + x + "\"";
    var t := a + y;
    assert Pieces(keep, t, 0, None) == Pieces(keep, t, 1, Some(1));
    SkipPlain(keep, t, 1, |x| + 1, Some(1));
    assert t[1..|x| + 1] == x;
    PiecesShift(keep, a, y, 0, None);
  }

  lemma NoQuoteSkipped(keep: string -> seq<string>, c: char, y: string)
    requires c != '"'
    ensures Pieces(keep, [c] + y, 0, None) == Pieces(keep, y, 0, None)
  {
    PiecesShift(keep, [c], y, 0, None);
  }

  lemma CutIn(x: string, y: string)
    requires !Lacks(x, ']')
    ensures UpTo("\"" + x + "\"" + y, ']') == "\"" + UpTo(x, ']')
  {
    var p := Find(x, ']');
    var t := "\"" + x + "\"" + y;
    assert t[..p + 1] == "\"" + x[..p];
    FindsFirst(t, ']', p + 1);
  }

  lemma CutBehind(x: string, y: string)
    requires Lacks(x, ']')
    ensures UpTo("\"" + x + "\"" + y, ']') == "\"" + x + "\"" + UpTo(y, ']')
  {
    var a := "\"" + x + "\"";
    FindInFront(a, y, ']');
    assert (a + y)[..|a| + Find(y, ']')] == a + y[..Find(y, ']')];
  }

  lemma CutRest(xs: seq<string>)
    requires xs != []
    ensures UpTo(Rest(xs) + "]", ']') == "," + UpTo(Joined(xs) + "]", ']')
  {
    var j := Joined(xs) + "]";
    assert Rest(xs) + "]" == "," + j;
    FindInFront(",", j, ']');
    assert ("," + j)[..1 + Find(j, ']')] == "," + j[..Find(j, ']')];
  }

  lemma FrontGrows(xs: seq<string>)
    requires xs != [] && Lacks(xs[0], ']')
    ensures xs[..FirstBracket(xs)] == [xs[0]] + xs[1..][..FirstBracket(xs[1..])]
  {}

  /** Elements without quotes are read in order up to the first that holds a closing bracket. */
  lemma {:induction false} ScanReadsFront(xs: seq<string>)
    requires NoneHolds(xs, '"')
    ensures Quoted(UpTo(Joined(xs) + "]", ']')) == KeptAll(xs[..FirstBracket(xs)])
    decreases |xs|, 0
  {
    if xs == [] {
      FindsFirst("]", ']', 0);
    } else {
      var x, more := xs[0], xs[1..];
      var y := Rest(more) + "]";
      assert Joined(xs) + "]" == "\"" + x + "\"" + y;
      assert Lacks(x, '"');
      if !Lacks(x, ']') {
        CutIn(x, y);
        OpenQuote(Kept, UpTo(x, ']'));
      } else {
        FrontGrows(xs);
        CutBehind(x, y);
        ClosedQuote(Kept, x, UpTo(y, ']'));
        ScanReadsRest(more);
      }
    }
  }

  lemma {:induction false} ScanReadsRest(xs: seq<string>)
    requires NoneHolds(xs, '"')
    ensures Quoted(UpTo(Rest(xs) + "]", ']')) == KeptAll(xs[..FirstBracket(xs)])
    decreases |xs|, 1
  {
    if xs == [] {
      FindsFirst("]", ']', 0);
    } else {
      CutRest(xs);
      NoQuoteSkipped(Kept, ',', UpTo(Joined(xs) + "]", ']'));
      ScanReadsFront(xs);
    }
  }

  // ---- When a list arrives unchanged ------------------------------------------------------------

  /** An element that crosses as it is: nothing to trim, nothing to escape, no closing bracket. */
  ghost predicate Clean(w: Writer, x: string) {
    x != "" && x[0] > ' ' && x[|x| - 1] > ' ' && Lacks(x, ']') && Verbatim(w, x)
  }

  ghost predicate Verbatim(w: Writer, x: string) { forall i :: 0 <= i < |x| ==> !Special(w, x[i]) }

  lemma {:induction false} VerbatimIff(w: Writer, x: string)
    ensures |Escaped(w, x)| >= |x| && (Escaped(w, x) == x <==> Verbatim(w, x))
    ensures |Escaped(w, x)| == |x| ==> Verbatim(w, x)
  {
    if x != "" {
      EscapeShape(w, x[0]);
      VerbatimIff(w, x[1..]);
      assert x == [x[0]] + x[1..];
      if Verbatim(w, x) { assert Verbatim(w, x[1..]); }
      if Verbatim(w, x[1..]) && !Special(w, x[0]) { assert forall i :: 0 < i < |x| ==> x[i] == x[1..][i - 1]; }
    }
  }

  lemma LacksBoth(a: string, b: string, c: char)
    ensures Lacks(a + b, c) <==> Lacks(a, c) && Lacks(b, c)
  {
    if Lacks(a + b, c) {
      forall i | 0 <= i < |a| ensures a[i] != c { assert (a + b)[i] == a[i]; }
      forall i | 0 <= i < |b| ensures b[i] != c { assert (a + b)[|a| + i] == b[i]; }
    }
  }

  /** Escaping keeps quotes and brackets where they were. */
  lemma {:induction false} EscapedHolds(w: Writer, x: string)
    ensures Lacks(Escaped(w, x), ']') <==> Lacks(x, ']')
    ensures Lacks(Escaped(w, x), '"') <==> Lacks(x, '"')
  {
    if x != "" {
      var e := Escape(w, x[0]);
      EscapeShape(w, x[0]);
      EscapedHolds(w, x[1..]);
      assert x == [x[0]] + x[1..];
      LacksBoth(e, Escaped(w, x[1..]), ']');
      LacksBoth(e, Escaped(w, x[1..]), '"');
      LacksBoth([x[0]], x[1..], ']');
      LacksBoth([x[0]], x[1..], '"');
      assert forall c :: Lacks([x[0]], c) <==> [x[0]][0] != c;
    }
  }

  /** Ends that need no trimming still need none once escaped. */
  lemma {:induction false} EscapedEnds(w: Writer, x: string)
    requires x != "" && x[|x| - 1] > ' '
    ensures Escaped(w, x) != "" && Escaped(w, x)[|Escaped(w, x)| - 1] > ' '
    ensures x[0] > ' ' ==> Escaped(w, x)[0] > ' '
  {
    EscapeShape(w, x[0]);
    if |x| > 1 { EscapedEnds(w, x[1..]); } else { assert Escaped(w, x[1..]) == ""; }
  }

  lemma EscapedStaysTrimmed(w: Writer, x: string)
    requires x != "" && x[0] > ' ' && x[|x| - 1] > ' '
    ensures JavaTrim(Escaped(w, x)) == Escaped(w, x) != ""
    ensures Escaped(w, x)[0] > ' ' && Escaped(w, x)[|Escaped(w, x)| - 1] > ' '
  {
    EscapedEnds(w, x);
  }

  /** Elements without quotes arrive escaped and trimmed, up to the first that holds a closing bracket. */
  lemma SurvivorsWithoutQuotes(w: Writer, xs: seq<string>)
    requires NoneHolds(xs, '"')
    ensures Survivors(w, xs) == KeptAll(EscapedAll(w, xs)[..FirstBracket(xs)])
  {
    var es := EscapedAll(w, xs);
    forall i | 0 <= i < |xs| ensures Lacks(es[i], '"') && (!Lacks(es[i], ']') <==> !Lacks(xs[i], ']')) {
      EscapedHolds(w, xs[i]);
    }
    ScanReadsFront(es);
    SameBracket(xs, es);
    var t := Joined(es) + "]";
    assert t[|t| - 1] == ']';
  }

  lemma {:induction false} SameBracket(xs: seq<string>, es: seq<string>)
    requires |xs| == |es| && forall i :: 0 <= i < |xs| ==> (!Lacks(es[i], ']') <==> !Lacks(xs[i], ']'))
    ensures FirstBracket(xs) == FirstBracket(es)
  {
    if xs != [] {
      assert !Lacks(es[0], ']') <==> !Lacks(xs[0], ']');
      SameBracket(xs[1..], es[1..]);
    }
  }

  lemma {:induction false} KeptAllIs(xs: seq<string>)
    requires forall i :: 0 <= i < |xs| ==> xs[i] != "" && JavaTrim(xs[i]) == xs[i]
    ensures KeptAll(xs) == xs
  {
    if xs != [] {
      assert xs[0] != "" && JavaTrim(xs[0]) == xs[0];
      KeptAllIs(xs[1..]);
      assert xs == [xs[0]] + xs[1..];
    }
  }

  lemma {:induction false} KeptAllSize(xs: seq<string>)
    ensures |KeptAll(xs)| <= |xs|
    ensures |KeptAll(xs)| == |xs| ==> forall i :: 0 <= i < |xs| ==> KeptAll(xs)[i] == JavaTrim(xs[i])
  {
    if xs != [] { KeptAllSize(xs[1..]); }
  }

  lemma NoBracketInFront(xs: seq<string>)
    ensures NoneHolds(xs, ']') ==> FirstBracket(xs) == |xs|
  {}

  /** Verbatim elements arrive up to the first that holds a closing bracket. */
  lemma VerbatimFrontArrives(w: Writer, xs: seq<string>)
    requires forall i :: 0 <= i < |xs| ==> xs[i] != "" && xs[i][0] > ' ' && xs[i][|xs[i]| - 1] > ' ' && Verbatim(w, xs[i])
    ensures Survivors(w, xs) == xs[..FirstBracket(xs)]
  {
    var m := FirstBracket(xs);
    forall i | 0 <= i < |xs| ensures EscapedAll(w, xs)[i] == xs[i] && Lacks(xs[i], '"') && JavaTrim(xs[i]) == xs[i] {
      VerbatimIff(w, xs[i]);
    }
    assert EscapedAll(w, xs) == xs;
    SurvivorsWithoutQuotes(w, xs);
    KeptAllIs(xs[..m]);
  }

  lemma UnchangedMeansClean(w: Writer, xs: seq<string>, i: nat)
    requires Survivors(w, xs) == xs && i < |xs|
    ensures Clean(w, xs[i])
  {
    SurvivorsAreTidy(w, xs);
    var x := xs[i];
    assert Tidy(x) && Lacks(x, ']');
    SurvivorsWithoutQuotes(w, xs);
    NoBracketInFront(xs);
    var es := EscapedAll(w, xs);
    assert es[..|xs|] == es;
    KeptAllSize(es);
    EscapedStaysTrimmed(w, x);
    VerbatimIff(w, x);
  }

  /** The list arrives as it was sent exactly when no element holds a closing bracket, a character the writer escapes, or blanks at an end. */
  lemma ListArrivesIff(w: Writer, xs: seq<string>)
    ensures Survivors(w, xs) == xs <==> forall i :: 0 <= i < |xs| ==> Clean(w, xs[i])
  {
    if Survivors(w, xs) == xs {
      forall i | 0 <= i < |xs| ensures Clean(w, xs[i]) { UnchangedMeansClean(w, xs, i); }
    } else if forall i :: 0 <= i < |xs| ==> Clean(w, xs[i]) {
      VerbatimFrontArrives(w, xs);
      NoBracketInFront(xs);
    }
  }

  // ---- From one Java relay to the next ------------------------------------------------------------

  /** What a Java relay makes of a backslash, n times over. */
  function Again(x: string, n: nat): string { if n == 0 then x else Escaped(JavaJson, Again(x, n - 1)) }

  function AgainAll(xs: seq<string>, n: nat): (ys: seq<string>)
    ensures |ys| == |xs|
  {
    seq(|xs|, i requires 0 <= i < |xs| => Again(xs[i], n))
  }

  /** A text field as the Java server reads it: up to the first quote, trimmed. */
  function FieldSeen(w: Writer, x: string): string { JavaTrim(UpTo(Escaped(w, x) + "\"", '"')) }

  ghost predicate Settled(x: string) { Lacks(x, '"') && JavaTrim(x) == x }

  lemma FieldIsSettled(w: Writer, x: string)
    ensures Settled(FieldSeen(w, x))
  {
    TrimIsPart(UpTo(Escaped(w, x) + "\"", '"'));
  }

  /** A field that was read once is read again with its backslashes doubled. */
  lemma FieldSeenAgain(x: string)
    requires Settled(x)
    ensures FieldSeen(JavaJson, x) == Escaped(JavaJson, x) && Settled(Escaped(JavaJson, x))
  {
    var e := Escaped(JavaJson, x);
    EscapedHolds(JavaJson, x);
    FindInFront(e, "\"", '"');
    FindsFirst("\"", '"', 0);
    assert (e + "\"")[..|e|] == e;
    if x != "" {
      assert x[0] > ' ' && x[|x| - 1] > ' ';
      EscapedStaysTrimmed(JavaJson, x);
    }
  }

  /** A list that survived once survives again with its backslashes doubled. */
  lemma SurvivesAgain(xs: seq<string>)
    requires AllTidy(xs) && NoneHolds(xs, ']')
    ensures Survivors(JavaJson, xs) == AgainAll(xs, 1) && AllTidy(AgainAll(xs, 1)) && NoneHolds(AgainAll(xs, 1), ']')
  {
    var es := EscapedAll(JavaJson, xs);
    forall i | 0 <= i < |xs| ensures es[i] == Again(xs[i], 1) && Tidy(es[i]) && Lacks(es[i], ']') && JavaTrim(es[i]) == es[i] {
      assert Again(xs[i], 0) == xs[i];
      EscapedHolds(JavaJson, xs[i]);
      EscapedStaysTrimmed(JavaJson, xs[i]);
    }
    assert es == AgainAll(xs, 1);
    assert NoneHolds(xs, '"');
    SurvivorsWithoutQuotes(JavaJson, xs);
    NoBracketInFront(xs);
    assert es[..|xs|] == es;
    KeptAllIs(es);
  }
}

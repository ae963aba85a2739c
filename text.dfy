/** Whitespace trimming and the trim-then-drop-blanks step that both the list
    editor and the application apply to names. */
module Text {

  /** The characters that the JavaScript `String.prototype.trim` removes:
      the ECMAScript WhiteSpace set (tab, vertical tab, form feed, the byte
      order mark and every space separator) and the LineTerminator set. */
  predicate IsWhitespace(c: char)
  {
    c == '\t' || c == '\n' || c == '\U{B}' || c == '\U{C}' || c == '\r' ||
    c == ' ' || c == '\U{A0}' || c == '\U{1680}' ||
    ('\U{2000}' <= c <= '\U{200A}') ||
    c == '\U{2028}' || c == '\U{2029}' || c == '\U{202F}' || c == '\U{205F}' ||
    c == '\U{3000}' || c == '\U{FEFF}'
  }

  /** Neither end of `s` is whitespace. */
  predicate IsTrimmed(s: string)
  {
    s == [] || (!IsWhitespace(s[0]) && !IsWhitespace(s[|s| - 1]))
  }

  predicate AllWhitespace(s: string)
  {
    forall k :: 0 <= k < |s| ==> IsWhitespace(s[k])
  }

  /** A name as stored: present and trimmed. */
  predicate IsCleanName(s: string)
  {
    s != [] && IsTrimmed(s)
  }

  /** Number of leading whitespace characters. */
  function LeadingWhitespace(s: string): (i: nat)
    ensures i <= |s|
    ensures forall k :: 0 <= k < i ==> IsWhitespace(s[k])
    ensures i < |s| ==> !IsWhitespace(s[i])
  {
    if s != [] && IsWhitespace(s[0]) then 1 + LeadingWhitespace(s[1..]) else 0
  }

  /** Index where the trailing run of whitespace starts. */
  function TrailingWhitespaceStart(s: string): (j: nat)
    ensures j <= |s|
    ensures forall k :: j <= k < |s| ==> IsWhitespace(s[k])
    ensures 0 < j ==> !IsWhitespace(s[j - 1])
  {
    if s != [] && IsWhitespace(s[|s| - 1]) then TrailingWhitespaceStart(s[..|s| - 1]) else |s|
  }

  /** JavaScript `trim`: drop whitespace from both ends. */
  function Trim(s: string): (r: string)
    ensures IsTrimmed(r)
    ensures r == [] <==> AllWhitespace(s)
    ensures exists i, j :: 0 <= i <= j <= |s| && r == s[i..j] && AllWhitespace(s[..i]) && AllWhitespace(s[j..])
    ensures IsTrimmed(s) ==> r == s
  {
    var i := LeadingWhitespace(s);
    if i == |s| then
      assert [] == s[0..0] && AllWhitespace(s[..0]) && AllWhitespace(s[0..]);
      []
    else
      var j := TrailingWhitespaceStart(s);
      assert i < j;
      assert IsTrimmed(s) && s != [] ==> i == 0 && j == |s|;
      assert AllWhitespace(s[..i]) && AllWhitespace(s[j..]);
      s[i..j]
  }

  /** `names.map(trim)`. */
  function TrimAll(names: seq<string>): (r: seq<string>)
    ensures |r| == |names|
    ensures forall k :: 0 <= k < |names| ==> r[k] == Trim(names[k])
  {
    if names == [] then [] else [Trim(names[0])] + TrimAll(names[1..])
  }

  /** `names.filter(n => n !== '')`. */
  function KeepNonEmpty(names: seq<string>): (r: seq<string>)
    ensures |r| <= |names|
    ensures forall k :: 0 <= k < |r| ==> r[k] != [] && r[k] in names
  {
    if names == [] then []
    else (if names[0] == [] then [] else [names[0]]) + KeepNonEmpty(names[1..])
  }

  /** Trim every name and drop the ones left empty. */
  function Clean(names: seq<string>): seq<string>
  {
    KeepNonEmpty(TrimAll(names))
  }

  /** The cleaned names are non-empty and trimmed. */
  lemma CleanYieldsCleanNames(names: seq<string>)
    ensures forall k :: 0 <= k < |Clean(names)| ==> IsCleanName(Clean(names)[k])
    ensures |Clean(names)| <= |names|
  {
    var r := Clean(names);
    forall k | 0 <= k < |r| ensures IsCleanName(r[k]) {
      assert r[k] in TrimAll(names);
      var m :| 0 <= m < |names| && TrimAll(names)[m] == r[k];
    }
  }

  lemma {:induction false} TrimAllAppend(a: seq<string>, b: seq<string>)
    ensures TrimAll(a + b) == TrimAll(a) + TrimAll(b)
  {
    if a != [] {
      assert (a + b)[1..] == a[1..] + b;
      TrimAllAppend(a[1..], b);
    }
  }

  lemma {:induction false} KeepNonEmptyAppend(a: seq<string>, b: seq<string>)
    ensures KeepNonEmpty(a + b) == KeepNonEmpty(a) + KeepNonEmpty(b)
  {
    if a == [] {
      assert a + b == b;
    } else {
      assert (a + b)[1..] == a[1..] + b;
      KeepNonEmptyAppend(a[1..], b);
    }
  }

  /** Cleaning works piece by piece, so it keeps the order of the input. */
  lemma CleanAppend(a: seq<string>, b: seq<string>)
    ensures Clean(a + b) == Clean(a) + Clean(b)
  {
    TrimAllAppend(a, b);
    KeepNonEmptyAppend(TrimAll(a), TrimAll(b));
  }

  /** Cleaning a list of names that are already clean gives it back. */
  lemma {:induction false} CleanOfCleanNames(names: seq<string>)
    requires forall k :: 0 <= k < |names| ==> IsCleanName(names[k])
    ensures Clean(names) == names
  {
    if names != [] {
      CleanOfCleanNames(names[1..]);
    }
  }

  /** Cleaning yields nothing exactly when every name is blank. */
  lemma {:induction false} CleanEmptyIffAllBlank(names: seq<string>)
    ensures Clean(names) == [] <==> forall k :: 0 <= k < |names| ==> AllWhitespace(names[k])
  {
    if names != [] {
      CleanEmptyIffAllBlank(names[1..]);
      assert forall k :: 1 <= k < |names| ==> names[k] == names[1..][k - 1];
    }
  }
}

/** The list editor: raw text (typed or read from an uploaded file) is split on
    runs of newlines and commas, each piece is trimmed and blank pieces are
    dropped; the resulting names are sent to the application. */
module ListManager {
  import opened Types
  import opened Text

  predicate IsSeparator(c: char)
  {
    c == '\n' || c == ','
  }

  predicate NoSeparator(s: string)
  {
    forall k :: 0 <= k < |s| ==> !IsSeparator(s[k])
  }

  /** Index of the first separator, or `|s|` if there is none. */
  function SeparatorIndex(s: string): (i: nat)
    ensures i <= |s|
    ensures forall k :: 0 <= k < i ==> !IsSeparator(s[k])
    ensures i < |s| ==> IsSeparator(s[i])
  {
    if s == [] || IsSeparator(s[0]) then 0 else 1 + SeparatorIndex(s[1..])
  }

  /** Length of the run of separators that `s` starts with. */
  function SeparatorRun(s: string): (k: nat)
    ensures k <= |s|
    ensures forall m :: 0 <= m < k ==> IsSeparator(s[m])
    ensures k < |s| ==> !IsSeparator(s[k])
    ensures s != [] && IsSeparator(s[0]) ==> k >= 1
  {
    if s != [] && IsSeparator(s[0]) then 1 + SeparatorRun(s[1..]) else 0
  }

  /** `s.split(/[\n,]+/)`: the pieces between maximal runs of separators,
      including the empty piece before a leading run and after a trailing one. */
  function Split(s: string): seq<string>
    decreases |s|
  {
    var i := SeparatorIndex(s);
    if i == |s| then
      [s]
    else
      var rest := s[i..];
      [s[..i]] + Split(rest[SeparatorRun(rest)..])
  }

  /** No piece of a split holds a separator. */
  lemma {:induction false} SplitPiecesHaveNoSeparator(s: string)
    ensures forall k :: 0 <= k < |Split(s)| ==> NoSeparator(Split(s)[k])
    decreases |s|
  {
    var i := SeparatorIndex(s);
    if i == |s| {
      assert Split(s) == [s];
    } else {
      var rest := s[i..];
      SplitPiecesHaveNoSeparator(rest[SeparatorRun(rest)..]);
      assert NoSeparator(s[..i]) by {
        forall q | 0 <= q < i ensures !IsSeparator(s[..i][q]) {
          assert s[..i][q] == s[q];
        }
      }
    }
  }

  /** The parse shared by Apply and file upload:
      `text.split(/[\n,]+/).map(n => n.trim()).filter(n => n !== '')`. */
  function Parse(text: string): seq<string>
  {
    Clean(Split(text))
  }

  /** Every parsed name is non-empty, trimmed and free of separators. */
  lemma ParseYieldsCleanNames(text: string)
    ensures forall k :: 0 <= k < |Parse(text)| ==> IsCleanName(Parse(text)[k]) && NoSeparator(Parse(text)[k])
  {
    CleanYieldsCleanNames(Split(text));
    SplitPiecesHaveNoSeparator(text);
    CleanKeepsNoSeparator(Split(text));
  }

  lemma TrimKeepsNoSeparator(s: string)
    requires NoSeparator(s)
    ensures NoSeparator(Trim(s))
  {
    var i, j :| 0 <= i <= j <= |s| && Trim(s) == s[i..j];
    SliceKeepsNoSeparator(s, i, j);
  }

  lemma SliceKeepsNoSeparator(s: string, i: nat, j: nat)
    requires NoSeparator(s) && i <= j <= |s|
    ensures NoSeparator(s[i..j])
  {
    var t := s[i..j];
    forall q | 0 <= q < |t| ensures !IsSeparator(t[q]) {
      assert t[q] == s[i + q];
    }
  }

  lemma {:induction false} CleanKeepsNoSeparator(pieces: seq<string>)
    requires forall k :: 0 <= k < |pieces| ==> NoSeparator(pieces[k])
    ensures forall k :: 0 <= k < |Clean(pieces)| ==> NoSeparator(Clean(pieces)[k])
  {
    if pieces != [] {
      assert pieces == [pieces[0]] + pieces[1..];
      CleanAppend([pieces[0]], pieces[1..]);
      CleanKeepsNoSeparator(pieces[1..]);
      TrimKeepsNoSeparator(pieces[0]);
    }
  }

  /** `names.join('\n')`. */
  function Join(names: seq<string>): string
  {
    if names == [] then []
    else if |names| == 1 then names[0]
    else names[0] + "\n" + Join(names[1..])
  }

  // ---------------------------------------------------------------------------
  // Facts about splitting

  lemma {:induction false} SeparatorIndexNone(s: string)
    requires NoSeparator(s)
    ensures SeparatorIndex(s) == |s|
  {
    if s != [] {
      SeparatorIndexNone(s[1..]);
    }
  }

  /** A separator right after a separator-free prefix is the first one. */
  lemma {:induction false} SeparatorIndexAfter(a: string, t: string)
    requires NoSeparator(a)
    requires t != [] && IsSeparator(t[0])
    ensures SeparatorIndex(a + t) == |a|
  {
    if a == [] {
      assert a + t == t;
    } else {
      assert (a + t)[1..] == a[1..] + t;
      SeparatorIndexAfter(a[1..], t);
    }
  }

  /** Appending after the first separator does not move it. */
  lemma {:induction false} SeparatorIndexPrefix(a: string, t: string)
    requires SeparatorIndex(a) < |a|
    ensures SeparatorIndex(a + t) == SeparatorIndex(a)
  {
    if !IsSeparator(a[0]) {
      assert (a + t)[1..] == a[1..] + t;
      SeparatorIndexPrefix(a[1..], t);
    }
  }

  /** Appending after the end of a run does not lengthen it. */
  lemma {:induction false} SeparatorRunPrefix(u: string, t: string)
    requires SeparatorRun(u) < |u|
    ensures SeparatorRun(u + t) == SeparatorRun(u)
  {
    if IsSeparator(u[0]) {
      assert (u + t)[1..] == u[1..] + t;
      SeparatorRunPrefix(u[1..], t);
    }
  }

  /** A run that fills `u` continues into what follows. */
  lemma {:induction false} SeparatorRunWhole(u: string, t: string)
    requires SeparatorRun(u) == |u|
    ensures SeparatorRun(u + t) == |u| + SeparatorRun(t)
  {
    if u == [] {
      assert u + t == t;
    } else {
      assert (u + t)[1..] == u[1..] + t;
      SeparatorRunWhole(u[1..], t);
    }
  }

  lemma ParseEmptyString()
    ensures Parse("") == []
  {
    assert Split("") == [""];
  }

  /** Leading separators do not change the parse. */
  lemma ParseSkipsLeadingSeparators(b: string)
    ensures Parse(b[SeparatorRun(b)..]) == Parse(b)
  {
    var k := SeparatorRun(b);
    if k > 0 {
      assert SeparatorIndex(b) == 0;
      assert b[0..] == b;
      assert Split(b) == [""] + Split(b[k..]);
      CleanAppend([""], Split(b[k..]));
    }
  }

  // ---------------------------------------------------------------------------
  // Properties of the parse

  /** A text without separators parses to its trim, or to nothing when blank. */
  lemma ParseSegment(s: string)
    requires NoSeparator(s)
    ensures Parse(s) == if Trim(s) == [] then [] else [Trim(s)]
  {
    SeparatorIndexNone(s);
    assert s[..|s|] == s;
    assert Split(s) == [s];
  }

  /** One step of the parse: the piece before the first separator run, then
      the rest of the text after that run. */
  lemma SplitStep(s: string, i: nat, k: nat)
    requires i == SeparatorIndex(s) < |s|
    requires k == SeparatorRun(s[i..])
    ensures i + k <= |s|
    ensures Split(s) == [s[..i]] + Split(s[i + k..])
  {
    SliceOfSlice(s, i, k);
  }

  /** A slice of a slice.
      Dafny proves it unaided; it is stated apart so that the parse proofs
      citing it stay within the solver's resource limit. */
  lemma SliceOfSlice<T>(s: seq<T>, i: nat, k: nat)
    requires i + k <= |s|
    ensures s[i..][k..] == s[i + k..]
  {
  }

  lemma ParseStep(s: string, i: nat, k: nat)
    requires i == SeparatorIndex(s) < |s|
    requires k == SeparatorRun(s[i..])
    ensures i + k <= |s|
    ensures Parse(s) == Clean([s[..i]]) + Parse(s[i + k..])
  {
    SplitStep(s, i, k);
    CleanAppend([s[..i]], Split(s[i + k..]));
  }

  /** Names come out in the order of their segments: parsing distributes over
      a separator. */
  lemma ParseConcat(a: string, c: char, b: string)
    requires IsSeparator(c)
    ensures Parse(a + [c] + b) == Parse(a) + Parse(b)
  {
    assert a + [c] + b == a + ([c] + b);
    assert ([c] + b)[1..] == b;
    ParseBeforeSeparator(a, [c] + b);
  }

  lemma {:induction false} ParseBeforeSeparator(a: string, t: string)
    requires t != [] && IsSeparator(t[0])
    ensures Parse(a + t) == Parse(a) + Parse(t[1..])
    decreases |a|, 1
  {
    var i := SeparatorIndex(a);
    if i == |a| {
      ParsePlainBeforeSeparator(a, t);
    } else if SeparatorRun(a[i..]) < |a| - i {
      ParseRunInsideBeforeSeparator(a, t);
    } else {
      ParseRunToEndBeforeSeparator(a, t);
    }
  }

  /** Slicing a concatenation inside its left part.
      Dafny proves it unaided; it is stated apart so that the parse proofs
      citing it stay within the solver's resource limit. */
  lemma SliceLeft(a: string, t: string, i: nat, k: nat)
    requires i + k <= |a|
    ensures (a + t)[..i] == a[..i]
    ensures (a + t)[i..] == a[i..] + t
    ensures (a + t)[i + k..] == a[i + k..] + t
  {
  }

  lemma ParsePlainBeforeSeparator(a: string, t: string)
    requires t != [] && IsSeparator(t[0]) && NoSeparator(a)
    ensures Parse(a + t) == Parse(a) + Parse(t[1..])
  {
    PlainStep(a, t);
    ParseSegmentAsClean(a);
    ParseSkipsLeadingSeparators(t[1..]);
  }

  /** One step of the parse over a separator-free head followed by a run. */
  lemma PlainStep(a: string, t: string)
    requires t != [] && IsSeparator(t[0]) && NoSeparator(a)
    ensures Parse(a + t) == Clean([a]) + Parse(t[1..][SeparatorRun(t[1..])..])
  {
    var kb := SeparatorRun(t[1..]);
    SeparatorIndexAfter(a, t);
    RunAfterPlain(a, t);
    SlicesAroundRun(a, t, kb);
    ParseStepAt(a + t, |a|, 1 + kb, a, t[1..][kb..]);
  }

  /** `ParseStep` with the two pieces named by the caller. */
  lemma ParseStepAt(s: string, i: nat, k: nat, head: string, tail: string)
    requires i == SeparatorIndex(s) < |s|
    requires k == SeparatorRun(s[i..])
    requires i + k <= |s| && head == s[..i] && tail == s[i + k..]
    ensures Parse(s) == Clean([head]) + Parse(tail)
  {
    ParseStep(s, i, k);
  }

  lemma RunAfterPlain(a: string, t: string)
    requires t != [] && IsSeparator(t[0])
    ensures SeparatorRun((a + t)[|a|..]) == 1 + SeparatorRun(t[1..])
  {
    assert (a + t)[|a|..] == t;
  }

  /** The pieces of `a + t` on either side of a run inside `t`.
      Dafny proves it unaided; it is stated apart so that the parse proofs
      citing it stay within the solver's resource limit. */
  lemma SlicesAroundRun<T>(a: seq<T>, t: seq<T>, kb: nat)
    requires 1 + kb <= |t|
    ensures (a + t)[..|a|] == a
    ensures (a + t)[|a| + 1 + kb..] == t[1..][kb..]
  {
  }

  lemma ParseSegmentAsClean(a: string)
    requires NoSeparator(a)
    ensures Clean([a]) == Parse(a)
  {
    ParseSegment(a);
  }

  lemma {:induction false} ParseRunInsideBeforeSeparator(a: string, t: string)
    requires t != [] && IsSeparator(t[0])
    requires SeparatorIndex(a) < |a|
    requires SeparatorRun(a[SeparatorIndex(a)..]) < |a| - SeparatorIndex(a)
    ensures Parse(a + t) == Parse(a) + Parse(t[1..])
    decreases |a|, 0
  {
    var i := SeparatorIndex(a);
    var k := SeparatorRun(a[i..]);
    assert a[i..][0] == a[i];
    RunInsideUnchanged(a, t, i, k);
    ParseBeforeSeparator(a[i + k..], t);
    CombineSteps(a + t, a, i, k, k, a[i + k..] + t, Parse(t[1..]));
  }

  /** When the first separator run ends inside `a`, appending `t` moves neither
      the separator nor the end of its run. */
  lemma RunInsideUnchanged(a: string, t: string, i: nat, k: nat)
    requires i == SeparatorIndex(a) < |a|
    requires k == SeparatorRun(a[i..]) < |a| - i
    ensures SeparatorIndex(a + t) == i
    ensures SeparatorRun((a + t)[i..]) == k
    ensures (a + t)[..i] == a[..i]
    ensures (a + t)[i + k..] == a[i + k..] + t
  {
    SliceLeft(a, t, i, k);
    SeparatorIndexPrefix(a, t);
    SeparatorRunPrefix(a[i..], t);
  }

  /** Two texts whose first pieces agree, and whose remainders parse to the
      remainder of `a` followed by `extra`, parse to `Parse(a) + extra`. */
  lemma CombineSteps(x: string, a: string, i: nat, kx: nat, ka: nat, restx: string, extra: seq<string>)
    requires i == SeparatorIndex(x) < |x| && kx == SeparatorRun(x[i..])
    requires i == SeparatorIndex(a) < |a| && ka == SeparatorRun(a[i..])
    requires i + kx <= |x| && i + ka <= |a|
    requires x[..i] == a[..i] && x[i + kx..] == restx
    requires Parse(restx) == Parse(a[i + ka..]) + extra
    ensures Parse(x) == Parse(a) + extra
  {
    ParseStep(x, i, kx);
    ParseStep(a, i, ka);
    AppendAssociative(Clean([a[..i]]), Parse(a[i + ka..]), extra);
  }

  /** Slicing a concatenation inside its right part.
      Dafny proves it unaided; it is stated apart so that the parse proofs
      citing it stay within the solver's resource limit. */
  lemma SliceRight<T>(a: seq<T>, t: seq<T>, m: nat)
    requires m <= |t|
    ensures (a + t)[|a| + m..] == t[m..]
  {
  }

  /** Dafny proves it unaided; it is stated apart so that the parse proofs
      citing it stay within the solver's resource limit. */
  lemma EmptyPrefix<T>(p: seq<T>)
    ensures [] + p == p
  {
  }

  /** Dafny proves it unaided; it is stated apart so that the parse proofs
      citing it stay within the solver's resource limit. */
  lemma AppendAssociative<T>(p: seq<T>, q: seq<T>, r: seq<T>)
    ensures p + (q + r) == (p + q) + r
  {
  }

  /** When the first separator run of `a` reaches its end, it joins the run
      that `t` starts with. */
  lemma RunToEndJoins(a: string, t: string, i: nat, k: nat)
    requires t != [] && IsSeparator(t[0])
    requires i == SeparatorIndex(a) < |a|
    requires k == SeparatorRun(a[i..]) == |a| - i
    ensures SeparatorRun((a + t)[i..]) == k + 1 + SeparatorRun(t[1..])
  {
    SliceLeft(a, t, i, k);
    SeparatorRunWhole(a[i..], t);
  }

  lemma SliceAfterJoinedRun(a: string, t: string, i: nat, k: nat, kb: nat, kx: nat)
    requires t != [] && kb <= |t| - 1
    requires i + k == |a| && kx == k + 1 + kb
    ensures (a + t)[i + kx..] == t[1..][kb..]
  {
    SliceRight(a, t, 1 + kb);
  }

  lemma ParseRunToEndBeforeSeparator(a: string, t: string)
    requires t != [] && IsSeparator(t[0])
    requires SeparatorIndex(a) < |a|
    requires SeparatorRun(a[SeparatorIndex(a)..]) == |a| - SeparatorIndex(a)
    ensures Parse(a + t) == Parse(a) + Parse(t[1..])
  {
    var i := SeparatorIndex(a);
    var k := SeparatorRun(a[i..]);
    var b := t[1..];
    var kb := SeparatorRun(b);
    var x := a + t;
    ghost var kx := k + 1 + kb;
    assert i == SeparatorIndex(x) by { SeparatorIndexPrefix(a, t); }
    assert kx == SeparatorRun(x[i..]) by { RunToEndJoins(a, t, i, k); }
    assert x[i + kx..] == b[kb..] by { SliceAfterJoinedRun(a, t, i, k, kb, kx); }
    assert x[..i] == a[..i] by { PrefixOfAppend(a, t, i); }
    RunToEndFinish(x, a, i, kx, k, b, kb);
  }

  /** The last step of `ParseRunToEndBeforeSeparator`, stated over its pieces. */
  lemma RunToEndFinish(x: string, a: string, i: nat, kx: nat, ka: nat, b: string, kb: nat)
    requires i == SeparatorIndex(x) < |x| && kx == SeparatorRun(x[i..])
    requires i == SeparatorIndex(a) < |a| && ka == SeparatorRun(a[i..]) && i + ka == |a|
    requires kb == SeparatorRun(b) && i + kx <= |x|
    requires x[..i] == a[..i] && x[i + kx..] == b[kb..]
    ensures Parse(x) == Parse(a) + Parse(b)
  {
    ParseAfterExhaustedRun(a, i + ka, b, kb);
    CombineSteps(x, a, i, kx, ka, b[kb..], Parse(b));
  }

  lemma ParseAfterExhaustedRun(a: string, m: nat, b: string, kb: nat)
    requires m == |a| && kb == SeparatorRun(b)
    ensures Parse(b[kb..]) == Parse(a[m..]) + Parse(b)
  {
    assert a[m..] == [];
    ParseEmptyString();
    ParseSkipsLeadingSeparators(b);
    EmptyPrefix(Parse(b));
  }

  /** A prefix of `a + t` that lies within `a`.
      Dafny proves it unaided; it is stated apart so that the parse proofs
      citing it stay within the solver's resource limit. */
  lemma PrefixOfAppend<T>(a: seq<T>, t: seq<T>, i: nat)
    requires i <= |a|
    ensures (a + t)[..i] == a[..i]
  {
  }


  predicate Blank(s: string)
  {
    forall k :: 0 <= k < |s| ==> IsSeparator(s[k]) || IsWhitespace(s[k])
  }

  /** The text parses to nothing exactly when it holds only separators and
      whitespace (the empty text included). */
  lemma {:induction false} ParseEmptyIffBlank(s: string)
    ensures Parse(s) == [] <==> Blank(s)
    decreases |s|
  {
    var i := SeparatorIndex(s);
    if i == |s| {
      ParseSegment(s);
    } else {
      var k := SeparatorRun(s[i..]);
      assert s[i..][0] == s[i];
      ghost var head, tail := s[..i], s[i + k..];
      assert Parse(s) == Clean([head]) + Parse(tail) by { ParseStep(s, i, k); }
      assert Parse(tail) == [] <==> Blank(tail) by { ParseEmptyIffBlank(tail); }
      assert Clean([head]) == [] <==> AllWhitespace(head) by { ParseSegment(head); }
      assert Blank(s) <==> AllWhitespace(head) && Blank(tail) by { BlankSplit(s, i, k); }
    }
  }

  lemma BlankSplit(s: string, i: nat, k: nat)
    requires i == SeparatorIndex(s) < |s|
    requires k == SeparatorRun(s[i..])
    ensures i + k <= |s|
    ensures Blank(s) <==> AllWhitespace(s[..i]) && Blank(s[i + k..])
  {
    RunIsBlank(s, i, k);
    PrefixHasNoSeparator(s, i);
    BlankWithoutSeparator(s[..i]);
    BlankAroundRun(s, i, k);
  }

  lemma RunIsBlank(s: string, i: nat, k: nat)
    requires i < |s| && k == SeparatorRun(s[i..])
    ensures i + k <= |s| && Blank(s[i..i + k])
  {
    var run := s[i..i + k];
    forall q | 0 <= q < k ensures IsSeparator(run[q]) {
      assert run[q] == s[i..][q];
    }
  }

  lemma PrefixHasNoSeparator(s: string, i: nat)
    requires i == SeparatorIndex(s)
    ensures NoSeparator(s[..i])
  {
    assert forall q :: 0 <= q < i ==> s[..i][q] == s[q];
  }

  lemma BlankAroundRun(s: string, i: nat, k: nat)
    requires i + k <= |s| && Blank(s[i..i + k])
    ensures Blank(s) <==> Blank(s[..i]) && Blank(s[i + k..])
  {
    var pre, run, post := s[..i], s[i..i + k], s[i + k..];
    assert s == pre + run + post;
    BlankAppend(pre, run);
    BlankAppend(pre + run, post);
  }

  /** Without separators, blank means whitespace only. */
  lemma BlankWithoutSeparator(x: string)
    requires NoSeparator(x)
    ensures Blank(x) <==> AllWhitespace(x)
  {
  }

  lemma BlankAppend(a: string, b: string)
    ensures Blank(a + b) <==> Blank(a) && Blank(b)
  {
    if Blank(a) && Blank(b) {
      forall q | 0 <= q < |a + b| ensures IsSeparator((a + b)[q]) || IsWhitespace((a + b)[q]) {
        if q < |a| { assert (a + b)[q] == a[q]; } else { assert (a + b)[q] == b[q - |a|]; }
      }
    }
    if Blank(a + b) {
      forall q | 0 <= q < |a| ensures IsSeparator(a[q]) || IsWhitespace(a[q]) {
        assert (a + b)[q] == a[q];
      }
      forall q | 0 <= q < |b| ensures IsSeparator(b[q]) || IsWhitespace(b[q]) {
        assert (a + b)[|a| + q] == b[q];
      }
    }
  }

  /** Joining clean, separator-free names with newlines and parsing the text
      gives the names back. */
  lemma {:induction false} ParseJoin(names: seq<string>)
    requires forall k :: 0 <= k < |names| ==> IsCleanName(names[k]) && NoSeparator(names[k])
    ensures Parse(Join(names)) == names
  {
    if names == [] {
      ParseEmptyString();
    } else if |names| == 1 {
      ParseSegment(names[0]);
    } else {
      ParseJoin(names[1..]);
      assert Join(names) == names[0] + ['\n'] + Join(names[1..]);
      ParseConcat(names[0], '\n', Join(names[1..]));
      ParseSegment(names[0]);
    }
  }

  /** Parsing is idempotent through the newline join. */
  lemma ParseJoinParse(text: string)
    ensures Parse(Join(Parse(text))) == Parse(text)
  {
    ParseYieldsCleanNames(text);
    ParseJoin(Parse(text));
  }

  // ---------------------------------------------------------------------------
  // The editor's event handlers

  /** The editor's own state: the text in the text area. */
  datatype Editor = Editor(inputText: string)

  /** The new editor state and the list passed to `onUpdate`, if it is called. */
  datatype Outcome = Outcome(editor: Editor, update: Option<seq<string>>)

  /** The text area and the list last sent agree: the text parses to that list. */
  predicate InAgreement(o: Outcome)
  {
    o.update.Some? ==> Parse(o.editor.inputText) == o.update.value
  }

  /** Typing replaces the text and sends nothing. */
  function HandleTextChange(e: Editor, value: string): (o: Outcome)
    ensures o.editor.inputText == value && o.update == None
  {
    Outcome(Editor(value), None)
  }

  /** Pressing Apply sends the parse of the current text. */
  function HandleApply(e: Editor): (o: Outcome)
    ensures InAgreement(o)
    ensures o.editor == e
    ensures o.update.Some?
  {
    Outcome(e, Some(Parse(e.inputText)))
  }

  /** Reading an uploaded file: parse its content with the same parse, put the
      names back into the text area one per line and send them. */
  function HandleFileUpload(e: Editor, content: string): (o: Outcome)
    ensures InAgreement(o)
    ensures o.update == Some(Parse(content))
  {
    ParseJoinParse(content);
    var names := Parse(content);
    Outcome(Editor(Join(names)), Some(names))
  }

  /** Clear all: empty the text area and send an empty list. */
  function HandleClearAll(e: Editor): (o: Outcome)
    ensures InAgreement(o)
    ensures o.editor.inputText == [] && o.update == Some([])
  {
    ParseEmptyString();
    Outcome(Editor([]), Some([]))
  }

  /** Pressing Apply right after an upload sends the same list again. */
  lemma ApplyAfterUpload(e: Editor, content: string)
    ensures HandleApply(HandleFileUpload(e, content).editor).update == HandleFileUpload(e, content).update
  {
    ParseJoinParse(content);
  }
}

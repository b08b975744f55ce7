/** The input adapter of `form_post` (main.py:79-83): the text typed into the
    form becomes the list of strings handed to the pipeline. For the tasks of
    `models_to_split` the text is cut at every '.', each piece is stripped of
    surrounding whitespace and the empty pieces are dropped; every other task
    gets the text unchanged as a one-element list.

    Python's `str.split`, `str.strip` and `filter` are written out here, each
    with the properties that make it the operation the source relies on. */
module InputAdapter {
  import opened Tasks

  /** The sentence delimiter of main.py:80. */
  const Period: char := '.'

  // ---------------------------------------------------------------------------
  // str.split(d)
  // ---------------------------------------------------------------------------

  /** The number of occurrences of `d` in `s`. */
  function Count(s: string, d: char): (n: nat)
    ensures n <= |s|
  {
    if |s| == 0 then 0
    else (if s[0] == d then 1 else 0) + Count(s[1..], d)
  }

  /** One step of `Split`: the character `c` in front of a text whose pieces
      are `pieces` either starts a new piece (it is the separator) or joins the
      first piece. */
  function ConsPieces(c: char, d: char, pieces: seq<string>): (r: seq<string>)
    requires |pieces| >= 1
    ensures |r| == if c == d then |pieces| + 1 else |pieces|
  {
    if c == d then [""] + pieces else [[c] + pieces[0]] + pieces[1..]
  }

  /** Python's `s.split(d)` for a one-character separator: the maximal pieces
      between separators, empty pieces included, so there is always one piece
      more than there are separators. */
  function Split(s: string, d: char): (pieces: seq<string>)
    ensures |pieces| == Count(s, d) + 1
  {
    if |s| == 0 then [""] else ConsPieces(s[0], d, Split(s[1..], d))
  }

  /** Python's `d.join(pieces)`: the pieces with one separator between
      neighbours. */
  function Join(pieces: seq<string>, d: char): string
  {
    if |pieces| == 0 then ""
    else if |pieces| == 1 then pieces[0]
    else pieces[0] + [d] + Join(pieces[1..], d)
  }

  lemma SplitCons(c: char, s: string, d: char)
    ensures Split([c] + s, d) == ConsPieces(c, d, Split(s, d))
  {
    assert ([c] + s)[1..] == s;
  }

  lemma JoinCons(c: char, d: char, pieces: seq<string>)
    requires |pieces| >= 1
    ensures Join(ConsPieces(c, d, pieces), d) == [c] + Join(pieces, d)
  {
    var r := ConsPieces(c, d, pieces);
    if c == d {
      assert r[1..] == pieces;
    } else {
      assert r[1..] == pieces[1..];
      if |pieces| > 1 {
        assert Join(pieces, d) == pieces[0] + [d] + Join(pieces[1..], d);
      }
    }
  }

  /** Joining the pieces of a split gives back the text: splitting loses
      nothing but the separators themselves. */
  lemma {:induction false} JoinSplit(s: string, d: char)
    ensures Join(Split(s, d), d) == s
    decreases |s|
  {
    if |s| > 0 {
      assert s == [s[0]] + s[1..];
      JoinSplit(s[1..], d);
      SplitCons(s[0], s[1..], d);
      JoinCons(s[0], d, Split(s[1..], d));
    }
  }

  /** A text without the separator is a single piece. */
  lemma {:induction false} SplitWithoutSeparator(s: string, d: char)
    requires d !in s
    ensures Split(s, d) == [s]
    decreases |s|
  {
    if |s| > 0 {
      assert s == [s[0]] + s[1..];
      SplitWithoutSeparator(s[1..], d);
      SplitCons(s[0], s[1..], d);
    }
  }

  /** No piece of a split holds the separator. */
  lemma {:induction false} SplitPiecesWithoutSeparator(s: string, d: char)
    ensures forall i :: 0 <= i < |Split(s, d)| ==> d !in Split(s, d)[i]
    decreases |s|
  {
    if |s| > 0 {
      assert s == [s[0]] + s[1..];
      SplitPiecesWithoutSeparator(s[1..], d);
      SplitCons(s[0], s[1..], d);
    }
  }

  lemma ConsPiecesConcat(c: char, d: char, left: seq<string>, right: seq<string>)
    requires |left| >= 1
    ensures ConsPieces(c, d, left + right) == ConsPieces(c, d, left) + right
  {
    if c != d {
      assert (left + right)[0] == left[0];
      assert (left + right)[1..] == left[1..] + right;
    }
  }

  /** Splitting keeps the order of the text: the pieces of `a + d + b` are the
      pieces of `a` followed by the pieces of `b`. */
  lemma {:induction false} SplitConcat(a: string, b: string, d: char)
    ensures Split(a + [d] + b, d) == Split(a, d) + Split(b, d)
    decreases |a|
  {
    if |a| == 0 {
      assert a + [d] + b == [d] + b;
      SplitCons(d, b, d);
    } else {
      var tail := a[1..] + [d] + b;
      assert a + [d] + b == [a[0]] + tail;
      assert a == [a[0]] + a[1..];
      SplitConcat(a[1..], b, d);
      SplitCons(a[0], tail, d);
      SplitCons(a[0], a[1..], d);
      ConsPiecesConcat(a[0], d, Split(a[1..], d), Split(b, d));
    }
  }

  /** Splitting the join of separator-free pieces gives back those pieces:
      together with JoinSplit, `Split` and `Join` are inverse to each other. */
  lemma {:induction false} SplitJoin(pieces: seq<string>, d: char)
    requires |pieces| >= 1
    requires forall i :: 0 <= i < |pieces| ==> d !in pieces[i]
    ensures Split(Join(pieces, d), d) == pieces
    decreases |pieces|
  {
    SplitWithoutSeparator(pieces[0], d);
    if |pieces| > 1 {
      SplitJoin(pieces[1..], d);
      SplitConcat(pieces[0], Join(pieces[1..], d), d);
      assert pieces == [pieces[0]] + pieces[1..];
    }
  }

  // ---------------------------------------------------------------------------
  // str.strip()
  // ---------------------------------------------------------------------------

  /** Python's `str.isspace` on one character: the characters `str.strip()`
      removes when it is called without arguments. */
  predicate IsSpace(c: char)
  {
    || ('\t' <= c <= '\r')            // tab, line feed, vertical tab, form feed, carriage return
    || ('\U{1c}' <= c <= ' ')         // the four information separators and space
    || c == '\U{85}' || c == '\U{a0}' || c == '\U{1680}'
    || ('\U{2000}' <= c <= '\U{200a}')
    || c == '\U{2028}' || c == '\U{2029}' || c == '\U{202f}' || c == '\U{205f}' || c == '\U{3000}'
  }

  predicate AllSpace(s: string)
  {
    forall k :: 0 <= k < |s| ==> IsSpace(s[k])
  }

  /** A string with no whitespace at either end. */
  predicate IsStripped(s: string)
  {
    s == "" || (!IsSpace(s[0]) && !IsSpace(s[|s| - 1]))
  }

  /** Every character of `s[lo..hi]` is whitespace. */
  predicate SpaceBetween(s: string, lo: nat, hi: nat)
    requires lo <= hi <= |s|
  {
    forall m :: lo <= m < hi ==> IsSpace(s[m])
  }

  /** The first loop of CPython's `do_strip`: from index `k`, step over
      whitespace; the result is the index of the first character that is not
      whitespace, or `|s|`. */
  function SkipSpaces(s: string, k: nat): (i: nat)
    requires k <= |s|
    ensures k <= i <= |s|
    ensures SpaceBetween(s, k, i)
    ensures i < |s| ==> !IsSpace(s[i])
    decreases |s| - k
  {
    if k < |s| && IsSpace(s[k]) then SkipSpaces(s, k + 1) else k
  }

  /** The second loop of `do_strip`: from the end index `k`, step back over
      whitespace, never below `lo`; the result is one past the last character
      that is not whitespace, or `lo`. */
  function SkipSpacesBack(s: string, lo: nat, k: nat): (j: nat)
    requires lo <= k <= |s|
    ensures lo <= j <= k
    ensures SpaceBetween(s, j, k)
    ensures lo < j ==> !IsSpace(s[j - 1])
    decreases k
  {
    if lo < k && IsSpace(s[k - 1]) then SkipSpacesBack(s, lo, k - 1) else k
  }

  /** `SkipSpaces` stops at the first index `i` with only whitespace before
      it, and nowhere else. */
  lemma {:induction false} SkipSpacesUnique(s: string, k: nat, i: nat)
    requires k <= i <= |s| && SpaceBetween(s, k, i)
    requires i < |s| ==> !IsSpace(s[i])
    ensures SkipSpaces(s, k) == i
    decreases i - k
  {
    if k < i {
      SkipSpacesUnique(s, k + 1, i);
    }
  }

  /** `SkipSpacesBack` stops at the last index `j` with only whitespace
      after it, and nowhere else. */
  lemma {:induction false} SkipSpacesBackUnique(s: string, lo: nat, k: nat, j: nat)
    requires lo <= j <= k <= |s| && SpaceBetween(s, j, k)
    requires lo < j ==> !IsSpace(s[j - 1])
    ensures SkipSpacesBack(s, lo, k) == j
    decreases k - j
  {
    if j < k {
      SkipSpacesBackUnique(s, lo, k - 1, j);
    }
  }

  /** Python's `s.strip()`: `s` without the whitespace at either end. */
  function Strip(s: string): (r: string)
    ensures |r| <= |s|
    ensures IsStripped(r)
    ensures r == "" <==> AllSpace(s)
  {
    var i := SkipSpaces(s, 0);
    var j := SkipSpacesBack(s, i, |s|);
    StripMargins(s, i, j);
    s[i..j]
  }

  /** Cutting whitespace margins `s[..i]` and `s[j..]` off `s`, when the
      characters next to them are not whitespace, leaves a stripped slice
      that is empty exactly when `s` is all whitespace. */
  lemma StripMargins(s: string, i: nat, j: nat)
    requires i <= j <= |s|
    requires SpaceBetween(s, 0, i) && SpaceBetween(s, j, |s|)
    requires i < |s| ==> !IsSpace(s[i])
    requires i < j ==> !IsSpace(s[j - 1])
    ensures IsStripped(s[i..j])
    ensures s[i..j] == "" <==> AllSpace(s)
  {
    if i < j {
      assert s[i..j][0] == s[i];
      assert s[i..j][j - i - 1] == s[j - 1];
    }
  }

  /** The margins of `s` as strings are whitespace exactly when the index
      ranges are. */
  lemma MarginsAllSpace(s: string, i: nat, j: nat)
    requires i <= j <= |s|
    ensures AllSpace(s[..i]) <==> SpaceBetween(s, 0, i)
    ensures AllSpace(s[j..]) <==> SpaceBetween(s, j, |s|)
  {
    if SpaceBetween(s, j, |s|) {
      forall m | 0 <= m < |s| - j
        ensures IsSpace(s[j..][m])
      {
        assert s[j..][m] == s[j + m];
      }
    }
    if AllSpace(s[j..]) {
      forall m | j <= m < |s|
        ensures IsSpace(s[m])
      {
        assert s[m] == s[j..][m - j];
      }
    }
  }

  /** What `Strip` keeps is a slice of `s`, and what it cuts off on either
      side is whitespace. */
  lemma StripSlice(s: string) returns (i: nat, j: nat)
    ensures i <= j <= |s|
    ensures Strip(s) == s[i..j]
    ensures AllSpace(s[..i]) && AllSpace(s[j..])
  {
    i := SkipSpaces(s, 0);
    j := SkipSpacesBack(s, i, |s|);
    MarginsAllSpace(s, i, j);
  }

  /** A character that does not occur in `s` does not occur in `Strip(s)`. */
  lemma StripKeepsOut(s: string, c: char)
    requires c !in s
    ensures c !in Strip(s)
  {
    var i, j := StripSlice(s);
    assert forall k :: 0 <= k < j - i ==> Strip(s)[k] == s[i + k];
  }

  /** Conversely, a slice of `s` with whitespace-only margins and no
      whitespace at its own ends is `Strip(s)`: `Strip` is determined by
      StripSlice and its contract. */
  lemma StripUnique(s: string, i: nat, j: nat)
    requires i <= j <= |s|
    requires AllSpace(s[..i]) && AllSpace(s[j..])
    requires IsStripped(s[i..j])
    ensures Strip(s) == s[i..j]
  {
    MarginsAllSpace(s, i, j);
    if i == j {
      assert SpaceBetween(s, 0, |s|);
      SkipSpacesUnique(s, 0, |s|);
    } else {
      assert s[i..j][0] == s[i];
      assert s[i..j][j - i - 1] == s[j - 1];
      SkipSpacesUnique(s, 0, i);
      SkipSpacesBackUnique(s, i, |s|, j);
    }
  }

  /** Stripping twice is stripping once. */
  lemma StripIdempotent(s: string)
    ensures Strip(Strip(s)) == Strip(s)
  {
    var r := Strip(s);
    assert r[0..|r|] == r;
    assert r[..0] == "" && r[|r|..] == "";
    StripUnique(r, 0, |r|);
  }

  // ---------------------------------------------------------------------------
  // filter(lambda x: len(x) > 0, ...)
  // ---------------------------------------------------------------------------

  /** The pieces that are not empty, in their original order. */
  function DropEmpty(pieces: seq<string>): (kept: seq<string>)
    ensures |kept| <= |pieces|
    ensures forall i :: 0 <= i < |kept| ==> kept[i] != ""
  {
    if |pieces| == 0 then []
    else if pieces[0] == "" then DropEmpty(pieces[1..])
    else [pieces[0]] + DropEmpty(pieces[1..])
  }

  /** The filter keeps exactly the non-empty pieces. */
  lemma {:induction false} DropEmptyKeeps(pieces: seq<string>)
    ensures forall x :: x in DropEmpty(pieces) <==> x in pieces && x != ""
    decreases |pieces|
  {
    if |pieces| > 0 {
      DropEmptyKeeps(pieces[1..]);
      assert pieces == [pieces[0]] + pieces[1..];
    }
  }

  /** Filtering works piece by piece, so it keeps the order of the pieces. */
  lemma {:induction false} DropEmptyConcat(a: seq<string>, b: seq<string>)
    ensures DropEmpty(a + b) == DropEmpty(a) + DropEmpty(b)
    decreases |a|
  {
    if |a| > 0 {
      assert (a + b)[0] == a[0];
      assert (a + b)[1..] == a[1..] + b;
      DropEmptyConcat(a[1..], b);
    } else {
      assert a + b == b;
    }
  }

  // ---------------------------------------------------------------------------
  // The adapter
  // ---------------------------------------------------------------------------

  /** `map(lambda s: s.strip(), pieces)`. */
  function StripEach(pieces: seq<string>): (stripped: seq<string>)
    ensures |stripped| == |pieces|
    ensures forall i :: 0 <= i < |pieces| ==> stripped[i] == Strip(pieces[i])
  {
    seq(|pieces|, i requires 0 <= i < |pieces| => Strip(pieces[i]))
  }

  lemma StripEachConcat(a: seq<string>, b: seq<string>)
    ensures StripEach(a + b) == StripEach(a) + StripEach(b)
  {
  }

  /** The sentences of `text`: main.py:80-81 for a task of `models_to_split`.
      None is empty, none holds a period, none has whitespace at either end,
      and there is at most one more than there are periods. */
  function Sentences(text: string): (sentences: seq<string>)
    ensures |sentences| <= Count(text, Period) + 1
    ensures forall i :: 0 <= i < |sentences| ==>
      sentences[i] != "" && Period !in sentences[i] && IsStripped(sentences[i])
  {
    var pieces := Split(text, Period);
    var stripped := StripEach(pieces);
    var kept := DropEmpty(stripped);
    assert forall x :: x in kept ==> Period !in x && IsStripped(x) by {
      SplitPiecesWithoutSeparator(text, Period);
      DropEmptyKeeps(stripped);
      forall x | x in kept ensures Period !in x && IsStripped(x) {
        var k :| 0 <= k < |stripped| && stripped[k] == x;
        StripKeepsOut(pieces[k], Period);
      }
    }
    kept
  }

  /** The argument list `form_post` hands to the pipeline of `task` for the
      submitted `text`. */
  function AdaptInput(task: Task, text: string): (input: seq<string>)
    ensures !NeedsSplit(task) ==> input == [text]
    ensures NeedsSplit(task) ==> |input| <= Count(text, Period) + 1
    ensures NeedsSplit(task) ==>
      forall i :: 0 <= i < |input| ==>
        input[i] != "" && Period !in input[i] && IsStripped(input[i])
  {
    if NeedsSplit(task) then Sentences(text) else [text]
  }

  /** A sentence without a period becomes itself stripped, or nothing when it
      is only whitespace. */
  lemma AdaptSentence(task: Task, text: string)
    requires NeedsSplit(task)
    requires Period !in text
    ensures AdaptInput(task, text) == if AllSpace(text) then [] else [Strip(text)]
  {
    SentencesOfSentence(text);
  }

  lemma SentencesOfSentence(text: string)
    requires Period !in text
    ensures Sentences(text) == if AllSpace(text) then [] else [Strip(text)]
  {
    SplitWithoutSeparator(text, Period);
    var r := Strip(text);
    assert StripEach([text]) == [r];
    assert [r][1..] == [];
    assert DropEmpty([r]) == if r == "" then [] else [r];
  }

  /** Adapting two stretches of text joined by a period gives the sentences of
      the first followed by those of the second. With AdaptSentence this fixes
      the adapter's result for every text. */
  lemma AdaptConcat(task: Task, a: string, b: string)
    requires NeedsSplit(task)
    ensures AdaptInput(task, a + [Period] + b) == AdaptInput(task, a) + AdaptInput(task, b)
  {
    SentencesConcat(a, b);
  }

  lemma SentencesConcat(a: string, b: string)
    ensures Sentences(a + [Period] + b) == Sentences(a) + Sentences(b)
  {
    SplitConcat(a, b, Period);
    var left := Split(a, Period);
    var right := Split(b, Period);
    StripEachConcat(left, right);
    DropEmptyConcat(StripEach(left), StripEach(right));
  }

  /** AdaptSentence and AdaptConcat say all there is to say about the
      adapter of a split task: any function of the text that cuts at periods
      the same way and treats a single sentence the same way is that adapter. */
  lemma {:induction false} AdaptDetermined(task: Task, f: string -> seq<string>, text: string)
    requires NeedsSplit(task)
    requires forall s :: Period !in s ==> f(s) == if AllSpace(s) then [] else [Strip(s)]
    requires forall a, b :: f(a + [Period] + b) == f(a) + f(b)
    ensures f(text) == AdaptInput(task, text)
    decreases |text|
  {
    if Period in text {
      var k :| 0 <= k < |text| && text[k] == Period;
      var a, b := text[..k], text[k + 1..];
      assert text == a + [Period] + b;
      AdaptDetermined(task, f, a);
      AdaptDetermined(task, f, b);
      AdaptConcat(task, a, b);
    } else {
      AdaptSentence(task, text);
    }
  }

  // ---------------------------------------------------------------------------
  // Nothing but periods and whitespace is lost
  // ---------------------------------------------------------------------------

  /** The characters of `s` that are neither whitespace nor a period, in order. */
  function Visible(s: string): (v: string)
    ensures |v| <= |s|
  {
    if |s| == 0 then ""
    else (if IsSpace(s[0]) || s[0] == Period then "" else [s[0]]) + Visible(s[1..])
  }

  /** The concatenation of a list of strings. */
  function Flatten(pieces: seq<string>): string
  {
    if |pieces| == 0 then "" else pieces[0] + Flatten(pieces[1..])
  }

  lemma {:induction false} VisibleConcat(a: string, b: string)
    ensures Visible(a + b) == Visible(a) + Visible(b)
    decreases |a|
  {
    if |a| > 0 {
      assert (a + b)[0] == a[0];
      assert (a + b)[1..] == a[1..] + b;
      VisibleConcat(a[1..], b);
    } else {
      assert a + b == b;
    }
  }

  lemma {:induction false} VisibleOfSpaces(s: string)
    requires AllSpace(s)
    ensures Visible(s) == ""
    decreases |s|
  {
    if |s| > 0 {
      VisibleOfSpaces(s[1..]);
    }
  }

  /** Whitespace margins are not visible. */
  lemma VisibleBetweenSpaces(a: string, m: string, c: string)
    requires AllSpace(a) && AllSpace(c)
    ensures Visible(a + m + c) == Visible(m)
  {
    VisibleConcat(a + m, c);
    VisibleConcat(a, m);
    VisibleOfSpaces(a);
    VisibleOfSpaces(c);
  }

  /** Stripping removes whitespace only. */
  lemma VisibleStrip(s: string)
    ensures Visible(Strip(s)) == Visible(s)
  {
    var i, j := StripSlice(s);
    assert s == s[..i] + s[i..j] + s[j..];
    VisibleBetweenSpaces(s[..i], s[i..j], s[j..]);
  }

  lemma {:induction false} FlattenConcat(a: seq<string>, b: seq<string>)
    ensures Flatten(a + b) == Flatten(a) + Flatten(b)
    decreases |a|
  {
    if |a| > 0 {
      assert (a + b)[0] == a[0];
      assert (a + b)[1..] == a[1..] + b;
      FlattenConcat(a[1..], b);
    } else {
      assert a + b == b;
    }
  }

  /** The sentences of a text without a period, put back together. */
  lemma SentenceFlatten(task: Task, text: string)
    requires NeedsSplit(task)
    requires Period !in text
    ensures Flatten(AdaptInput(task, text)) == if AllSpace(text) then "" else Strip(text)
  {
    AdaptSentence(task, text);
    assert Flatten([Strip(text)]) == Strip(text) + Flatten([]);
  }

  /** The content-keeping property for a text without a period. */
  lemma SentenceKeepsText(task: Task, text: string)
    requires NeedsSplit(task)
    requires Period !in text
    ensures Visible(Flatten(AdaptInput(task, text))) == Visible(text)
  {
    SentenceFlatten(task, text);
    if AllSpace(text) {
      VisibleOfSpaces(text);
    } else {
      VisibleStrip(text);
    }
  }

  /** A period is not visible. */
  lemma VisibleAroundPeriod(a: string, b: string)
    ensures Visible(a + [Period] + b) == Visible(a) + Visible(b)
  {
    var p := [Period];
    assert Visible(p) == "" by {
      assert p[1..] == [];
    }
    VisibleConcat(a, p);
    VisibleConcat(a + p, b);
  }

  /** The sentences of `a + "." + b`, put back together. */
  lemma FlattenAdaptConcat(task: Task, a: string, b: string)
    requires NeedsSplit(task)
    ensures Flatten(AdaptInput(task, a + [Period] + b)) ==
            Flatten(AdaptInput(task, a)) + Flatten(AdaptInput(task, b))
  {
    AdaptConcat(task, a, b);
    FlattenConcat(AdaptInput(task, a), AdaptInput(task, b));
  }

  /** For a task whose text is cut into sentences, the sentences together
      hold every character of the text that is neither whitespace nor a
      period, in the order the text has them. */
  lemma {:induction false} AdaptKeepsText(task: Task, text: string)
    requires NeedsSplit(task)
    ensures Visible(Flatten(AdaptInput(task, text))) == Visible(text)
    decreases |text|
  {
    if Period in text {
      var k :| 0 <= k < |text| && text[k] == Period;
      var a, b := text[..k], text[k + 1..];
      assert text == a + [Period] + b;
      AdaptKeepsText(task, a);
      AdaptKeepsText(task, b);
      FlattenAdaptConcat(task, a, b);
      VisibleConcat(Flatten(AdaptInput(task, a)), Flatten(AdaptInput(task, b)));
      VisibleAroundPeriod(a, b);
    } else {
      SentenceKeepsText(task, text);
    }
  }

  /** A sentence that is one letter after some whitespace becomes that
      letter. */
  lemma OneLetterSentence(spaces: string, c: char)
    requires AllSpace(spaces) && !IsSpace(c) && c != Period
    requires Period !in spaces
    ensures Sentences(spaces + [c]) == [[c]]
  {
    var s := spaces + [c];
    assert s[|spaces|] == c;
    assert s[..|spaces|] == spaces;
    assert s[|spaces|..|s|] == [c];
    StripUnique(s, |spaces|, |s|);
    SentencesOfSentence(s);
  }

  /** The last sentence of a text, ended by its period. */
  lemma LastSentence(s: string, none: string, w: string)
    requires Sentences(s) == [w] && Sentences(none) == []
    ensures Sentences(s + [Period] + none) == [w]
  {
    SentencesConcat(s, none);
  }

  /** A sentence, its period, and a text that is one more sentence. */
  lemma TwoSentences(s: string, t: string, v: string, w: string)
    requires Sentences(s) == [v] && Sentences(t) == [w]
    ensures Sentences(s + [Period] + t) == [v, w]
  {
    SentencesConcat(s, t);
  }

  /** A sentence, its period, and a text that is two more sentences. */
  lemma ThreeSentencesOf(s: string, t: string, x: string, y: string, z: string)
    requires Sentences(s) == [x] && Sentences(t) == [y, z]
    ensures Sentences(s + [Period] + t) == [x, y, z]
  {
    SentencesConcat(s, t);
    assert [x] + [y, z] == [x, y, z];
  }

  /** Three sentences ended by periods, whatever their text. */
  lemma SentencesOfThree(sx: string, sy: string, sz: string, none: string, x: string, y: string, z: string)
    requires Sentences(sx) == [x] && Sentences(sy) == [y] && Sentences(sz) == [z]
    requires Sentences(none) == []
    ensures Sentences(sx + [Period] + (sy + [Period] + (sz + [Period] + none))) == [x, y, z]
  {
    var last := sz + [Period] + none;
    LastSentence(sz, none, z);
    var rest := sy + [Period] + last;
    TwoSentences(sy, last, y, z);
    ThreeSentencesOf(sx, rest, x, y, z);
  }

  /** "A. B. C." becomes the three sentences "A", "B" and "C", and so does
      every text of three one-letter sentences, each period followed by one
      whitespace character: the empty piece after the last period is
      dropped. */
  lemma ThreeSentences(task: Task, x: char, y: char, z: char, w: char)
    requires NeedsSplit(task)
    requires !IsSpace(x) && !IsSpace(y) && !IsSpace(z) && IsSpace(w)
    requires x != Period && y != Period && z != Period
    ensures AdaptInput(task, [x, Period, w, y, Period, w, z, Period]) == [[x], [y], [z]]
  {
    var text := [x, Period, w, y, Period, w, z, Period];
    var none, gap := [], [w];
    assert text == none + [x] + [Period] + (gap + [y] + [Period] + (gap + [z] + [Period] + none));
    ThreeLetterSentences(text, x, y, z, w);
  }

  /** The sentences of "x. y. z." with the whitespace `w` after each period. */
  lemma ThreeLetterSentences(text: string, x: char, y: char, z: char, w: char)
    requires !IsSpace(x) && !IsSpace(y) && !IsSpace(z) && IsSpace(w)
    requires x != Period && y != Period && z != Period
    requires text == [] + [x] + [Period] + ([w] + [y] + [Period] + ([w] + [z] + [Period] + []))
    ensures Sentences(text) == [[x], [y], [z]]
  {
    var none, gap := [], [w];
    OneLetterSentence(none, x);
    OneLetterSentence(gap, y);
    OneLetterSentence(gap, z);
    SentencesOfSentence(none);
    SentencesOfThree(none + [x], gap + [y], gap + [z], none, [x], [y], [z]);
  }
}

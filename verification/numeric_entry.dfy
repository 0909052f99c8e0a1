/** The numeric text filter of the matrix cell entry (`NumericEntry`).

    The widget keeps a cell's text to an optional leading `-`, then digits with at
    most one `.`. On every change it classifies the text; text outside that shape is
    rescanned left to right, keeping every digit, the first `.` while dots are still
    allowed, and a `-` only at index 0 while a minus is still allowed. The two
    "allowed" flags are per-widget state: a scan clears them, and only the change
    handler restores them. */
module NumericEntry {

  /** `str.isdigit`, restricted to the ASCII digits. */
  predicate IsDigit(c: char) {
    '0' <= c <= '9'
  }

  /** Number of occurrences of `c` in `s` (`str.count` for one character). */
  function Count(s: string, c: char): nat {
    if |s| == 0 then 0
    else Count(s[..|s| - 1], c) + (if s[|s| - 1] == c then 1 else 0)
  }

  /** The digits of `s`, in order. */
  function Digits(s: string): string {
    if |s| == 0 then []
    else Digits(s[..|s| - 1]) + (if IsDigit(s[|s| - 1]) then [s[|s| - 1]] else [])
  }

  /** The characters of `s` whose position is marked in `keep`, in order. */
  function Select(s: string, keep: seq<bool>): string
    requires |keep| == |s|
  {
    if |s| == 0 then []
    else Select(s[..|s| - 1], keep[..|s| - 1]) + (if keep[|s| - 1] then [s[|s| - 1]] else [])
  }

  /** `a` is obtained from `b` by deleting characters. */
  ghost predicate IsSubsequence(a: string, b: string) {
    exists keep: seq<bool> :: |keep| == |b| && Select(b, keep) == a
  }

  /** The grammar of an in-progress number: only digits, `.` and `-`; a `-` only at
      index 0; at most one `.`. */
  predicate WellFormed(t: string) {
    && (forall i :: 0 <= i < |t| ==> IsDigit(t[i]) || t[i] == '.' || (t[i] == '-' && i == 0))
    && Count(t, '.') <= 1
  }

  /** The texts that are well formed but are not yet a number: the change handler
      marks them as incomplete instead of filtering them. */
  const Unwritten: seq<string> := [".", "-", "-."]

  // ---------------------------------------------------------------------------
  // Counting lemmas

  lemma {:induction false} CountAppend(a: string, b: string, c: char)
    ensures Count(a + b, c) == Count(a, c) + Count(b, c)
    decreases |b|
  {
    if |b| == 0 {
      assert a + b == a;
    } else {
      var b' := b[..|b| - 1];
      assert (a + b)[..|a + b| - 1] == a + b';
      CountAppend(a, b', c);
    }
  }

  lemma {:induction false} CountZero(s: string, c: char)
    ensures Count(s, c) == 0 <==> c !in s
  {
    if |s| > 0 {
      var s' := s[..|s| - 1];
      CountZero(s', c);
      assert s == s' + [s[|s| - 1]];
    }
  }

  /** Under "at most one `.`", every `.` is the first one. */
  lemma DotIsFirst(t: string, i: nat)
    requires Count(t, '.') <= 1
    requires i < |t| && t[i] == '.'
    ensures '.' !in t[..i]
  {
    assert t == t[..i] + t[i..];
    CountAppend(t[..i], t[i..], '.');
    assert t[i..] == [t[i]] + t[i + 1..];
    CountAppend([t[i]], t[i + 1..], '.');
    assert [t[i]][..0] == [];
    CountZero(t[..i], '.');
  }

  lemma TwoDots(t: string, i: int, j: int)
    requires 0 <= i < j < |t| && t[i] == '.' && t[j] == '.'
    ensures Count(t, '.') >= 2
  {
    if Count(t, '.') <= 1 {
      DotIsFirst(t, j);
    }
  }

  // ---------------------------------------------------------------------------
  // `_needs_filtering`

  /** The three checks of `_needs_filtering`, in the order the source makes them;
      they reject exactly the texts outside the grammar. */
  function NeedsFiltering(t: string): (r: bool)
    ensures r <==> !WellFormed(t)
  {
    || Count(t, '.') > 1
    || ('-' in t && !(|t| > 0 && t[0] == '-'))
    || exists i :: 0 <= i < |t| && !IsDigit(t[i]) && (t[i] !in ".-" || (t[i] == '-' && i != 0))
  }

  /** A well-formed text without a digit is empty or one of the unwritten forms. */
  lemma WellFormedWithoutDigit(t: string)
    requires WellFormed(t)
    requires forall i :: 0 <= i < |t| ==> !IsDigit(t[i])
    ensures t == [] || t in Unwritten
  {
    if |t| >= 3 {
      TwoDots(t, 1, 2);
      assert false;
    } else if |t| == 2 {
      if t[0] == '.' {
        TwoDots(t, 0, 1);
        assert false;
      }
      assert t == "-.";
    } else if |t| == 1 {
      assert t == "." || t == "-";
    }
  }

  lemma UnwrittenAreWellFormed(t: string)
    requires t in Unwritten
    ensures WellFormed(t)
  {
    if t == "-." {
      assert t[..1][..0] == [];
      assert Count(t[..1], '.') == 0;
    } else {
      assert t[..0] == [];
    }
  }

  // ---------------------------------------------------------------------------
  // `filter_input`

  /** What the change handler does with the current text. */
  datatype Reaction =
    | Filtering   // marked as an error and a filter pass is scheduled
    | Incomplete  // marked as an error, left as it is
    | Accepted    // left as it is, error mark cleared

  /** The three-way classification of `filter_input`. */
  function Classify(t: string): (r: Reaction)
    ensures r == Filtering <==> !WellFormed(t)
    ensures r == Incomplete <==> t in Unwritten
    ensures r == Accepted ==> t == [] || exists i :: 0 <= i < |t| && IsDigit(t[i])
  {
    if t in Unwritten then UnwrittenAreWellFormed(t); Incomplete
    else if NeedsFiltering(t) then Filtering
    else
      assert t == [] || exists i :: 0 <= i < |t| && IsDigit(t[i]) by {
        if !(exists i :: 0 <= i < |t| && IsDigit(t[i])) {
          WellFormedWithoutDigit(t);
        }
      }
      Accepted
  }

  // ---------------------------------------------------------------------------
  // `_apply_numeric_filter`

  /** The `dot_allowed` and `minus_allowed` attributes of the widget. */
  datatype Flags = Flags(dotAllowed: bool, minusAllowed: bool)

  /** What `set_default_flags` sets. */
  const DefaultFlags := Flags(true, true)

  /** The state the scan threads through the loop: `new_text` and the two flags. */
  datatype Scan = Scan(text: string, flags: Flags)

  /** Whether the scan, started with flags `f`, keeps the character at index `i` of
      `t`: every digit, the first `.` if dots are allowed, a `-` at index 0 if a
      minus is allowed. This is the reference the scan is proved against. */
  predicate Kept(t: string, i: nat, f: Flags)
    requires i < |t|
  {
    || IsDigit(t[i])
    || (t[i] == '.' && f.dotAllowed && '.' !in t[..i])
    || (t[i] == '-' && f.minusAllowed && i == 0)
  }

  /** The characters among the first `n` of `t` that `Kept` marks, in order. */
  function KeptChars(t: string, n: nat, f: Flags): string
    requires n <= |t|
  {
    if n == 0 then []
    else KeptChars(t, n - 1, f) + (if Kept(t, n - 1, f) then [t[n - 1]] else [])
  }

  /** The marks of `Kept` on the first `n` positions of `t`. */
  function KeptMask(t: string, n: nat, f: Flags): (m: seq<bool>)
    requires n <= |t|
    ensures |m| == n
  {
    seq(n, i requires 0 <= i < n => Kept(t, i, f))
  }

  /** The flags after scanning the first `n` characters of `t`: a flag is still
      set only if it was set and the character that clears it has not been seen. */
  function FlagsAfter(t: string, n: nat, f: Flags): Flags
    requires n <= |t|
  {
    Flags(f.dotAllowed && '.' !in t[..n], f.minusAllowed && !(n > 0 && t[0] == '-'))
  }

  /** One iteration of the loop body, for character `c` at input index `index`. */
  function Step(s: Scan, c: char, index: nat): Scan {
    if IsDigit(c) then s.(text := s.text + [c])
    else if c == '.' && s.flags.dotAllowed then Scan(s.text + [c], s.flags.(dotAllowed := false))
    else if c == '-' && s.flags.minusAllowed && index == 0 then Scan(s.text + [c], s.flags.(minusAllowed := false))
    else s
  }

  /** The loop of `_apply_numeric_filter` after its first `n` iterations. */
  function ScanPrefix(t: string, n: nat, f: Flags): (r: Scan)
    requires n <= |t|
    ensures r.text == KeptChars(t, n, f)
    ensures r.flags == FlagsAfter(t, n, f)
  {
    if n == 0 then Scan([], f)
    else
      assert t[..n] == t[..n - 1] + [t[n - 1]];
      Step(ScanPrefix(t, n - 1, f), t[n - 1], n - 1)
  }

  /** The filtered text of the first `n` positions is no longer than the input
      and holds only digits, `.`, and `-` at index 0. */
  lemma {:induction false} KeptCharsAlphabet(t: string, n: nat, f: Flags)
    requires n <= |t|
    ensures var out := KeptChars(t, n, f);
      && |out| <= n
      && (forall k :: 0 <= k < |out| ==> IsDigit(out[k]) || out[k] == '.' || (out[k] == '-' && k == 0))
  {
    if n > 0 {
      KeptCharsAlphabet(t, n - 1, f);
      if n - 1 == 0 {
        assert KeptChars(t, n - 1, f) == [];
      }
    }
  }

  /** One `.` survives exactly when dots were allowed and the input has one. */
  lemma {:induction false} KeptDotCount(t: string, n: nat, f: Flags)
    requires n <= |t|
    ensures Count(KeptChars(t, n, f), '.') == (if f.dotAllowed && '.' in t[..n] then 1 else 0)
  {
    if n > 0 {
      KeptDotCount(t, n - 1, f);
      var p := KeptChars(t, n - 1, f);
      var x := if Kept(t, n - 1, f) then [t[n - 1]] else [];
      assert t[..n] == t[..n - 1] + [t[n - 1]];
      CountAppend(p, x, '.');
      if x != [] {
        assert [t[n - 1]][..0] == [];
      }
    }
  }

  /** A `-` survives exactly when a minus was allowed and the input starts with one. */
  lemma {:induction false} KeptMinus(t: string, n: nat, f: Flags)
    requires n <= |t|
    ensures '-' in KeptChars(t, n, f) <==> f.minusAllowed && n > 0 && t[0] == '-'
  {
    if n > 0 {
      KeptMinus(t, n - 1, f);
      if n - 1 == 0 {
        assert KeptChars(t, n - 1, f) == [];
      }
    }
  }

  /** Dropping nothing means keeping the input. */
  lemma {:induction false} KeptCharsFull(t: string, n: nat, f: Flags)
    requires n <= |t|
    ensures |KeptChars(t, n, f)| == n ==> KeptChars(t, n, f) == t[..n]
  {
    if n > 0 {
      KeptCharsFull(t, n - 1, f);
      KeptCharsAlphabet(t, n - 1, f);
      assert t[..n] == t[..n - 1] + [t[n - 1]];
    }
  }

  lemma KeptCharsShape(t: string, n: nat, f: Flags)
    requires n <= |t|
    ensures WellFormed(KeptChars(t, n, f))
    ensures |KeptChars(t, n, f)| <= n
  {
    KeptCharsAlphabet(t, n, f);
    KeptDotCount(t, n, f);
  }

  /** With both flags set, a well-formed text keeps every character. */
  lemma {:induction false} KeptAllWhenWellFormed(t: string, n: nat)
    requires n <= |t|
    requires WellFormed(t)
    ensures KeptChars(t, n, DefaultFlags) == t[..n]
  {
    if n > 0 {
      KeptAllWhenWellFormed(t, n - 1);
      if t[n - 1] == '.' {
        DotIsFirst(t, n - 1);
      }
      assert Kept(t, n - 1, DefaultFlags);
      assert t[..n] == t[..n - 1] + [t[n - 1]];
    }
  }

  lemma {:induction false} KeptCharsSelect(t: string, n: nat, f: Flags)
    requires n <= |t|
    ensures KeptChars(t, n, f) == Select(t[..n], KeptMask(t, n, f))
  {
    if n > 0 {
      KeptCharsSelect(t, n - 1, f);
      assert t[..n][..n - 1] == t[..n - 1];
      assert KeptMask(t, n, f)[..n - 1] == KeptMask(t, n - 1, f);
    }
  }

  lemma {:induction false} KeptCharsDigits(t: string, n: nat, f: Flags)
    requires n <= |t|
    ensures Digits(KeptChars(t, n, f)) == Digits(t[..n])
  {
    if n > 0 {
      KeptCharsDigits(t, n - 1, f);
      var p := KeptChars(t, n - 1, f);
      assert t[..n][..n - 1] == t[..n - 1];
      assert Digits(t[..n]) == Digits(t[..n - 1]) + (if IsDigit(t[n - 1]) then [t[n - 1]] else []);
      if Kept(t, n - 1, f) {
        assert (p + [t[n - 1]])[..|p|] == p;
        assert Digits(p + [t[n - 1]]) == Digits(p) + (if IsDigit(t[n - 1]) then [t[n - 1]] else []);
      } else {
        assert KeptChars(t, n, f) == p + [] == p;
      }
    }
  }

  /** The whole rescan of `_apply_numeric_filter`, from flags `f`: the new text and
      the flags it leaves behind. Its output is always well formed, and with both
      flags set it is the input exactly when the input is well formed. */
  function Filter(t: string, f: Flags): (r: Scan)
    ensures WellFormed(r.text)
    ensures r.text == t || |r.text| < |t|
    ensures f == DefaultFlags ==> (r.text == t <==> WellFormed(t))
    ensures r.flags == Flags(f.dotAllowed && '.' !in t, f.minusAllowed && !(|t| > 0 && t[0] == '-'))
  {
    KeptCharsShape(t, |t|, f);
    KeptCharsFull(t, |t|, f);
    assert t[..|t|] == t;
    if f == DefaultFlags && WellFormed(t) then
      KeptAllWhenWellFormed(t, |t|);
      ScanPrefix(t, |t|, f)
    else
      ScanPrefix(t, |t|, f)
  }

  /** The output is the input with exactly the positions `Kept` marks selected:
      every digit, the first `.` of the input if dots are allowed, and a `-` only if
      it sits at input index 0 and a minus is allowed. */
  lemma FilterSelectsKept(t: string, f: Flags)
    ensures Filter(t, f).text == Select(t, KeptMask(t, |t|, f))
  {
    KeptCharsSelect(t, |t|, f);
    assert t[..|t|] == t;
  }

  lemma FilterIsSubsequence(t: string, f: Flags)
    ensures IsSubsequence(Filter(t, f).text, t)
  {
    FilterSelectsKept(t, f);
  }

  lemma FilterKeepsDigits(t: string, f: Flags)
    ensures Digits(Filter(t, f).text) == Digits(t)
  {
    KeptCharsDigits(t, |t|, f);
    assert t[..|t|] == t;
  }

  /** At most one `.` survives, and only if dots were allowed; a `-` survives only
      if a minus was allowed and the input starts with it. */
  lemma FilterMarks(t: string, f: Flags)
    ensures Count(Filter(t, f).text, '.') == (if f.dotAllowed && '.' in t then 1 else 0)
    ensures '-' in Filter(t, f).text <==> f.minusAllowed && |t| > 0 && t[0] == '-'
  {
    KeptDotCount(t, |t|, f);
    KeptMinus(t, |t|, f);
    assert t[..|t|] == t;
  }

  /** Filtering a filtered text again, from the default flags, changes nothing. */
  lemma FilterIdempotent(t: string, f: Flags)
    ensures Filter(Filter(t, f).text, DefaultFlags).text == Filter(t, f).text
  {
  }

  // ---------------------------------------------------------------------------
  // `_update_text_and_cursor` and the widget state

  /** The cursor after a write-back: the old cursor moved left by the number of
      characters removed, clamped to `[0, newLen]`. It keeps its distance from the
      end of the text whenever that distance still fits. */
  function NewCursor(cursor: nat, oldLen: nat, newLen: nat): (r: nat)
    ensures r <= newLen
    ensures newLen <= oldLen ==> r <= cursor
    ensures cursor <= oldLen && oldLen - cursor <= newLen ==> newLen - r == oldLen - cursor
    ensures cursor <= oldLen && oldLen - cursor > newLen ==> r == 0
  {
    var shifted := cursor - (oldLen - newLen);
    var capped := if shifted < newLen then shifted else newLen;
    if capped > 0 then capped else 0
  }

  /** The widget: its text, its cursor position and its two flags. */
  datatype Entry = Entry(text: string, cursor: nat, flags: Flags)

  /** The idle callback `_apply_numeric_filter(text)` run on widget `e`: the scan
      uses and updates the widget's flags; the text and cursor are written only when
      the scan changed `text`. */
  function ApplyNumericFilter(e: Entry, text: string): (r: Entry)
    ensures r.flags.dotAllowed ==> e.flags.dotAllowed
    ensures r.flags.minusAllowed ==> e.flags.minusAllowed
    ensures r.text == e.text || WellFormed(r.text)
    ensures WellFormed(text) && e.flags == DefaultFlags ==> r.text == e.text && r.cursor == e.cursor
    ensures !WellFormed(text) ==>
      && r.text != text && WellFormed(r.text) && |r.text| < |text|
      && r.cursor <= |r.text| && r.cursor <= e.cursor
  {
    var s := Filter(text, e.flags);
    if s.text != text then Entry(s.text, NewCursor(e.cursor, |text|, |s.text|), s.flags)
    else e.(flags := s.flags)
  }

  /** What the change handler decides and the widget it leaves behind. */
  datatype Change = Change(reaction: Reaction, entry: Entry)

  /** `filter_input` on the widget's current text. A pass is scheduled exactly for
      text outside the grammar, and the widget it leaves behind makes that pass run
      from the default flags, so the pass restores the grammar and changes the
      text. Any other text is already in the grammar and the widget is untouched. */
  function FilterInput(e: Entry): (r: Change)
    ensures r.entry.text == e.text && r.entry.cursor == e.cursor
    ensures r.reaction == Filtering <==> !WellFormed(e.text)
    ensures r.reaction == Filtering ==>
      var pass := ApplyNumericFilter(r.entry, e.text);
      && pass.text == Filter(e.text, DefaultFlags).text
      && WellFormed(pass.text) && pass.text != e.text
    ensures r.reaction != Filtering ==> r.entry == e && WellFormed(e.text)
  {
    var reaction := Classify(e.text);
    Change(reaction, if reaction == Filtering then e.(flags := DefaultFlags) else e)
  }

  /** A change event followed by the idle pass it schedules: whatever flags the
      widget held, the pass runs from the default flags, writes back a shorter,
      well-formed text that the handler would no longer filter, and puts the
      cursor inside it, no further right than it was. */
  lemma ChangeThenIdle(e: Entry)
    requires FilterInput(e).reaction == Filtering
    ensures var r := ApplyNumericFilter(FilterInput(e).entry, e.text);
      && r.text == Filter(e.text, DefaultFlags).text
      && Classify(r.text) != Filtering
      && |r.text| < |e.text|
      && r.cursor <= |r.text| && r.cursor <= e.cursor
      && Digits(r.text) == Digits(e.text)
  {
    FilterKeepsDigits(e.text, DefaultFlags);
  }

  /** Two changes that both need filtering, queued before the idle loop runs:
      each `filter_input` restores the flags, but the first pass spends them and
      its own write-back runs with `filter_input` blocked, so nothing restores them
      before the second pass. That pass then drops every `.` of its text, which a
      pass from the default flags would have kept: "1.5a" then "1.5ab" leaves "15". */
  lemma QueuedPassDropsDot(e: Entry, t2: string)
    requires !WellFormed(e.text) && !WellFormed(t2)
    requires '.' in e.text && '.' in t2
    ensures var first := FilterInput(e);
      var second := FilterInput(first.entry.(text := t2));
      var pass1 := ApplyNumericFilter(second.entry, e.text);
      var pass2 := ApplyNumericFilter(pass1, t2);
      && first.reaction == Filtering && second.reaction == Filtering
      && '.' in pass1.text
      && '.' !in pass2.text
      && '.' in Filter(t2, DefaultFlags).text
  {
    var second := FilterInput(FilterInput(e).entry.(text := t2));
    var pass1 := ApplyNumericFilter(second.entry, e.text);
    FilterMarks(e.text, DefaultFlags);
    CountZero(pass1.text, '.');
    FilterMarks(t2, pass1.flags);
    CountZero(Filter(t2, pass1.flags).text, '.');
    FilterMarks(t2, DefaultFlags);
    CountZero(Filter(t2, DefaultFlags).text, '.');
  }
}

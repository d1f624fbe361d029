/** Unwrapping of the model's completion text before it is handed to
    `JSON.parse`: the first match of the regular expression
    /```(?:json)?\s*([\s\S]*?)```/ is looked for; if there is one, its
    captured group is trimmed, otherwise the whole text is trimmed. */
module ResponseUnwrap {
  import opened Wrappers
  import opened JsText

  /** Three backticks start at position i. */
  predicate FenceAt(s: string, i: int)
  {
    0 <= i && i + 3 <= |s| && s[i] == '`' && s[i + 1] == '`' && s[i + 2] == '`'
  }

  /** The four letters `json` start at position i. */
  predicate JsonTagAt(s: string, i: int)
  {
    0 <= i && i + 4 <= |s| && s[i] == 'j' && s[i + 1] == 's' && s[i + 2] == 'o' && s[i + 3] == 'n'
  }

  /** s holds no three consecutive backticks. */
  predicate NoFence(s: string)
  {
    forall i | 0 <= i < |s| :: !FenceAt(s, i)
  }

  /** Some fence is followed by another one starting at least three characters later. */
  predicate HasFencePair(s: string)
  {
    exists i, j | 0 <= i && i + 3 <= j < |s| :: FenceAt(s, i) && FenceAt(s, j)
  }

  /** The first fence at or after position i. */
  function FindFence(s: string, i: nat): (r: Option<nat>)
    ensures r.Some? ==> i <= r.value && FenceAt(s, r.value)
    ensures r.Some? ==> forall k :: i <= k < r.value ==> !FenceAt(s, k)
    ensures r.None? ==> forall k :: i <= k ==> !FenceAt(s, k)
    decreases |s| - i
  {
    if i + 3 > |s| then None
    else if FenceAt(s, i) then Some(i)
    else FindFence(s, i + 1)
  }

  /** One way the regular expression can match: the opening fence at `open`,
      whether the optional `json` tag is consumed, how many white-space
      characters `\s*` consumes, and how many characters the lazy group
      `([\s\S]*?)` captures before the closing fence. */
  datatype Choice = Choice(open: nat, tagged: bool, spaces: nat, length: nat)
  {
    /** Where the captured group begins. */
    function CaptureStart(): (q: nat)
    {
      open + 3 + (if tagged then 4 else 0) + spaces
    }

    /** Where the closing fence begins. */
    function CaptureEnd(): (e: nat)
    {
      CaptureStart() + length
    }
  }

  /** The regular expression matches s in the way m describes. */
  predicate RegexMatch(s: string, m: Choice)
  {
    var q0 := m.open + 3 + (if m.tagged then 4 else 0);
    FenceAt(s, m.open) &&
    (m.tagged ==> JsonTagAt(s, m.open + 3)) &&
    q0 + m.spaces <= |s| &&
    (forall k :: q0 <= k < q0 + m.spaces ==> IsSpace(s[k])) &&
    FenceAt(s, m.CaptureEnd())
  }

  /** The order in which a backtracking engine tries matches: leftmost start
      first; the greedy optional `json` taken before skipped; more
      white space for the greedy `\s*` before less; a shorter capture for
      the lazy group before a longer one. */
  predicate TriedFirst(m: Choice, n: Choice)
  {
    m.open < n.open ||
    (m.open == n.open &&
      ((m.tagged && !n.tagged) ||
       (m.tagged == n.tagged &&
         (m.spaces > n.spaces || (m.spaces == n.spaces && m.length <= n.length)))))
  }

  /** The match `String.prototype.match` reports, computed directly: the
      first fence opens; the `json` tag is taken if present; all white
      space after it is skipped; the capture runs to the next fence. */
  function FenceMatch(s: string): (r: Option<Choice>)
  {
    match FindFence(s, 0)
    case None => None
    case Some(p) =>
      var tagged := JsonTagAt(s, p + 3);
      var q0 := p + 3 + (if tagged then 4 else 0);
      var q := SkipSpaces(s, q0);
      match FindFence(s, q)
      case None => None
      case Some(e) => Some(Choice(p, tagged, q - q0, e - q))
  }

  /** `jsonMatch ? jsonMatch[1].trim() : content.trim()` */
  function Unwrap(s: string): (r: string)
    ensures r == [] || (!IsSpace(r[0]) && !IsSpace(r[|r| - 1]))
    ensures exists a, b | 0 <= a <= b <= |s| :: r == s[a..b]
  {
    match FenceMatch(s)
    case None =>
      assert Trim(s) == s[TrimStart(s)..TrimEnd(s)];
      Trim(s)
    case Some(m) =>
      FenceMatchInBounds(s);
      Capture(s, m)
  }

  /** The captured group after trimming, as a slice of s. */
  function Capture(s: string, m: Choice): (r: string)
    requires m.CaptureEnd() <= |s|
    ensures r == [] || (!IsSpace(r[0]) && !IsSpace(r[|r| - 1]))
    ensures exists a, b | 0 <= a <= b <= |s| :: r == s[a..b]
  {
    var q, e := m.CaptureStart(), m.CaptureEnd();
    var c := s[q..e];
    var a, b := TrimStart(c), TrimEnd(c);
    assert Trim(c) == c[a..b];
    SliceOfSlice(s, q, e, a, b);
    Trim(c)
  }

  lemma SliceOfSlice(s: string, q: nat, e: nat, a: nat, b: nat)
    requires q <= e <= |s| && a <= b <= e - q
    ensures s[q..e][a..b] == s[q + a..q + b]
  {
    var x, y := s[q..e][a..b], s[q + a..q + b];
    assert |x| == |y|;
    forall k | 0 <= k < |x| ensures x[k] == y[k] {
      assert x[k] == s[q..e][a + k] == s[q + a + k];
    }
  }

  lemma FenceMatchInBounds(s: string)
    ensures FenceMatch(s).Some? ==> RegexMatch(s, FenceMatch(s).value)
    ensures FenceMatch(s).Some? ==> FenceMatch(s).value.CaptureEnd() + 3 <= |s|
    ensures FenceMatch(s).Some? ==>
              forall k :: FenceMatch(s).value.CaptureStart() <= k < FenceMatch(s).value.CaptureEnd() ==> !FenceAt(s, k)
  {
  }

  /** Between the end of the opening fence and the start of the capture
      there are only tag letters and white space, so no fence starts there. */
  lemma NoFenceBeforeCapture(s: string, p: nat)
    requires FenceAt(s, p)
    ensures var q0 := p + 3 + (if JsonTagAt(s, p + 3) then 4 else 0);
            q0 <= |s| &&
            forall k :: p + 3 <= k < SkipSpaces(s, q0) ==> !FenceAt(s, k)
  {
    var q0 := p + 3 + (if JsonTagAt(s, p + 3) then 4 else 0);
    var q := SkipSpaces(s, q0);
    assert forall k :: p + 3 <= k < q0 ==> s[k] != '`';
    assert forall k :: q0 <= k < q ==> s[k] != '`';
  }

  /** FenceMatch is the match a backtracking regular-expression engine
      finds: no match exists when it reports none, and when it reports one,
      that one is a match and is tried before every other match. */
  lemma FenceMatchIsFirstMatch(s: string)
    ensures FenceMatch(s).Some? ==> RegexMatch(s, FenceMatch(s).value)
    ensures forall n :: RegexMatch(s, n) ==>
              FenceMatch(s).Some? && TriedFirst(FenceMatch(s).value, n)
  {
    FenceMatchInBounds(s);
    forall n | RegexMatch(s, n)
      ensures FenceMatch(s).Some? && TriedFirst(FenceMatch(s).value, n)
    {
      FenceMatchBefore(s, n);
    }
  }

  lemma FenceMatchBefore(s: string, n: Choice)
    requires RegexMatch(s, n)
    ensures FenceMatch(s).Some? && TriedFirst(FenceMatch(s).value, n)
  {
    var p := FindFence(s, 0).value;
    assert p <= n.open;
    NoFenceBeforeCapture(s, p);
  }

  /** A match exists exactly when some fence is followed by another that
      starts at least three characters later. */
  lemma MatchExistsIff(s: string)
    ensures FenceMatch(s).Some? <==> HasFencePair(s)
  {
    FenceMatchIsFirstMatch(s);
    if FenceMatch(s).Some? {
      var m := FenceMatch(s).value;
      assert FenceAt(s, m.open) && FenceAt(s, m.CaptureEnd());
    }
    if HasFencePair(s) {
      var i, j :| 0 <= i && i + 3 <= j < |s| && FenceAt(s, i) && FenceAt(s, j);
      assert RegexMatch(s, Choice(i, false, 0, j - i - 3));
    }
  }

  /** Without a pair of fences the whole text is trimmed. */
  lemma UnwrapWithoutFencePair(s: string)
    requires !HasFencePair(s)
    ensures Unwrap(s) == Trim(s)
  {
    MatchExistsIff(s);
  }

  /** When a fenced block is found, the result holds no fence: the lazy
      capture stops at the first closing fence after its start. */
  lemma FencedResultHasNoFence(s: string)
    requires FenceMatch(s).Some?
    ensures NoFence(Unwrap(s))
  {
    var m := FenceMatch(s).value;
    FenceMatchInBounds(s);
    var q, e := m.CaptureStart(), m.CaptureEnd();
    assert Unwrap(s) == Trim(s[q..e]);
    TrimmedSliceHasNoFence(s, q, e);
  }

  /** Trimming a slice in which no fence starts leaves a text with no fence. */
  lemma TrimmedSliceHasNoFence(s: string, q: nat, e: nat)
    requires q <= e <= |s|
    requires forall k :: q <= k < e ==> !FenceAt(s, k)
    ensures NoFence(Trim(s[q..e]))
  {
    var c := s[q..e];
    var a, b := TrimStart(c), TrimEnd(c);
    var r := Trim(c);
    assert r == c[a..b];
    SliceOfSlice(s, q, e, a, b);
    forall i | 0 <= i < |r| ensures !FenceAt(r, i) {
      assert r[i] == s[q + a + i];
      assert FenceAt(r, i) ==> FenceAt(s, q + a + i);
    }
  }

  /** A substring of a text without a fence pair has none either. */
  lemma SubstringKeepsNoFencePair(s: string, a: nat, b: nat)
    requires a <= b <= |s| && !HasFencePair(s)
    ensures !HasFencePair(s[a..b])
  {
    var t := s[a..b];
    if HasFencePair(t) {
      var i, j :| 0 <= i && i + 3 <= j < |t| && FenceAt(t, i) && FenceAt(t, j);
      assert FenceAt(s, a + i) && FenceAt(s, a + j);
    }
  }

  /** Unwrapping an unwrapped text changes nothing. */
  lemma UnwrapIdempotent(s: string)
    ensures Unwrap(Unwrap(s)) == Unwrap(s)
  {
    var r := Unwrap(s);
    MatchExistsIff(s);
    if FenceMatch(s).Some? {
      FencedResultHasNoFence(s);
      assert !HasFencePair(r);
    } else {
      var a, b := TrimStart(s), TrimEnd(s);
      assert r == s[a..b];
      SubstringKeepsNoFencePair(s, a, b);
    }
    UnwrapWithoutFencePair(r);
    TrimKeepsTrimmed(r);
  }

  /** The completion text `c` wrapped in a fenced block whose opening
      fence carries the tag `tag` followed by the white space `ws`. */
  function Fenced(tag: string, ws: string, c: string): (r: string)
  {
    "```" + tag + ws + c + "```"
  }

  lemma FirstFenceIs(s: string, i: nat, e: nat)
    requires i <= e && FenceAt(s, e)
    requires forall j :: i <= j < e ==> !FenceAt(s, j)
    ensures FindFence(s, i) == Some(e)
  {
  }

  /** Fence transparency: wrapping a text that holds no fence in a fenced
      block, with the `json` tag or without it, and with any white space
      after the opening fence, does not change the result. Two side
      conditions are needed: the text must not end in a backtick (that
      backtick and the closing fence would form the fence that ends the
      capture), and with no tag and no white space the text must not begin
      with `json` (the regular expression would take it as the tag). */
  lemma FenceTransparency(tag: string, ws: string, c: string)
    requires tag == "json" || (tag == "" && (ws != [] || !JsonTagAt(c, 0)))
    requires AllSpace(ws) && NoFence(c)
    requires c == [] || c[|c| - 1] != '`'
    ensures Unwrap(Fenced(tag, ws, c)) == Unwrap(c) == Trim(c)
  {
    assert !HasFencePair(c);
    UnwrapWithoutFencePair(c);
    var s := Fenced(tag, ws, c);
    FencedLayout(tag, ws, c);
    FencedTag(tag, ws, c);
    UnwrapOfLayout(s, tag == "json", 3 + |tag| + |ws|, c);
  }

  /** When the text opens with a fence, Unwrap trims what lies between the
      white space after the optional tag and the next fence. */
  lemma UnwrapFirstFence(s: string, tagged: bool, q: nat, e: nat)
    requires FenceAt(s, 0) && JsonTagAt(s, 3) == tagged
    requires 3 + (if tagged then 4 else 0) <= |s|
    requires SkipSpaces(s, 3 + (if tagged then 4 else 0)) == q
    requires FindFence(s, q) == Some(e)
    ensures Unwrap(s) == Trim(s[q..e])
  {
    FirstFenceIs(s, 0, 0);
    var q0 := 3 + (if tagged then 4 else 0);
    var m := Choice(0, tagged, q - q0, e - q);
    assert m.CaptureStart() == q && m.CaptureEnd() == e;
    assert FenceMatch(s) == Some(m);
    assert Unwrap(s) == Capture(s, m);
  }

  /** Where the parts of a fenced block lie. */
  lemma FencedLayout(tag: string, ws: string, c: string)
    requires AllSpace(ws)
    ensures |Fenced(tag, ws, c)| == 3 + |tag| + |ws| + |c| + 3
    ensures FenceAt(Fenced(tag, ws, c), 0)
    ensures FenceAt(Fenced(tag, ws, c), 3 + |tag| + |ws| + |c|)
    ensures forall j :: 3 + |tag| <= j < 3 + |tag| + |ws| ==> IsSpace(Fenced(tag, ws, c)[j])
    ensures Fenced(tag, ws, c)[3 + |tag| + |ws|..3 + |tag| + |ws| + |c|] == c
  {
    var s, t, w := Fenced(tag, ws, c), 3 + |tag|, 3 + |tag| + |ws|;
    assert forall j :: t <= j < w ==> s[j] == ws[j - t];
  }

  /** The regular expression takes the `json` tag exactly when it is written. */
  lemma FencedTag(tag: string, ws: string, c: string)
    requires tag == "json" || (tag == "" && (ws != [] || !JsonTagAt(c, 0)))
    requires AllSpace(ws)
    ensures JsonTagAt(Fenced(tag, ws, c), 3) == (tag == "json")
  {
    var s := Fenced(tag, ws, c);
    if tag == "" && ws == [] {
      assert s == "```" + c + "```";
      if |c| >= 4 {
        assert s[3..7] == c[0..4];
      } else {
        assert s[3 + |c|] == '`';
      }
    } else if tag == "" {
      assert s[3] == ws[0];
    }
  }

  /** Unwrap of a text laid out as: a fence at 0, the tag if `tagged`,
      white space up to w, the text c, and a closing fence. */
  lemma UnwrapOfLayout(s: string, tagged: bool, w: nat, c: string)
    requires FenceAt(s, 0) && JsonTagAt(s, 3) == tagged
    requires 3 + (if tagged then 4 else 0) <= w && |s| == w + |c| + 3
    requires forall j :: 3 + (if tagged then 4 else 0) <= j < w ==> IsSpace(s[j])
    requires s[w..w + |c|] == c && FenceAt(s, w + |c|)
    requires NoFence(c) && (c == [] || c[|c| - 1] != '`')
    ensures Unwrap(s) == Trim(c)
  {
    var t := 3 + (if tagged then 4 else 0);
    LayoutCapture(s, t, w, c);
    UnwrapFirstFence(s, tagged, SkipSpaces(s, t), w + |c|);
  }

  /** The capture of such a layout runs from the end of the white space to
      the closing fence and trims like c. */
  lemma LayoutCapture(s: string, t: nat, w: nat, c: string)
    requires t <= w && |s| == w + |c| + 3
    requires forall j :: t <= j < w ==> IsSpace(s[j])
    requires s[w..w + |c|] == c && FenceAt(s, w + |c|)
    requires NoFence(c) && (c == [] || c[|c| - 1] != '`')
    ensures w <= SkipSpaces(s, t) <= w + |c|
    ensures FindFence(s, SkipSpaces(s, t)) == Some(w + |c|)
    ensures Trim(s[SkipSpaces(s, t)..w + |c|]) == Trim(c)
  {
    var q := SkipSpaces(s, t);
    LayoutSpaces(s, t, w, c);
    LayoutClose(s, w, c, q);
    LayoutTrim(s, w, c, q);
  }

  /** The text between q and the closing fence trims like the whole text. */
  lemma LayoutTrim(s: string, w: nat, c: string, q: nat)
    requires |s| == w + |c| + 3 && w <= q <= w + |c|
    requires s[w..w + |c|] == c && AllSpace(c[..q - w])
    ensures Trim(s[q..w + |c|]) == Trim(c)
  {
    LayoutSuffix(s, w, c, q);
    TrimDropLeading(c, q - w);
  }

  /** From q on, the text before the closing fence is a suffix of c. */
  lemma LayoutSuffix(s: string, w: nat, c: string, q: nat)
    requires w <= q <= w + |c| <= |s|
    requires s[w..w + |c|] == c
    ensures s[q..w + |c|] == c[q - w..]
  {
    SliceOfSlice(s, w, w + |c|, q - w, |c|);
  }

  /** `\s*` skips the white space before the text and at most the text's
      own leading white space. */
  lemma LayoutSpaces(s: string, t: nat, w: nat, c: string)
    requires t <= w && |s| == w + |c| + 3
    requires forall j :: t <= j < w ==> IsSpace(s[j])
    requires s[w..w + |c|] == c && FenceAt(s, w + |c|)
    ensures w <= SkipSpaces(s, t) <= w + |c|
    ensures AllSpace(c[..SkipSpaces(s, t) - w])
  {
    var q, e := SkipSpaces(s, t), w + |c|;
    assert !IsSpace(s[e]);
    assert w <= q <= e;
    var k := q - w;
    forall j | 0 <= j < k ensures IsSpace(c[..k][j]) {
      assert c[..k][j] == s[w..e][j] == s[w + j];
    }
  }

  /** From inside the text, the first fence is the closing one. */
  lemma LayoutClose(s: string, w: nat, c: string, q: nat)
    requires |s| == w + |c| + 3 && w <= q <= w + |c|
    requires s[w..w + |c|] == c && FenceAt(s, w + |c|)
    requires NoFence(c) && (c == [] || c[|c| - 1] != '`')
    ensures FindFence(s, q) == Some(w + |c|)
  {
    var e := w + |c|;
    forall j | q <= j < e ensures !FenceAt(s, j) {
      if j + 3 <= e {
        assert s[j] == c[j - w] && s[j + 1] == c[j + 1 - w] && s[j + 2] == c[j + 2 - w];
        assert FenceAt(s, j) ==> FenceAt(c, j - w);
      } else {
        assert s[e - 1] == c[|c| - 1];
      }
    }
    FirstFenceIs(s, q, e);
  }

  /** A text ending in a backtick is never transparent: the lazy capture
      stops at a fence that begins no later than the text's last backtick
      (at the latest, that backtick and the closing fence form one), so it
      ends before that backtick, the last character of the trimmed text. */
  lemma TrailingBacktick(tag: string, ws: string, c: string)
    requires tag == "json" || tag == ""
    requires AllSpace(ws) && c != [] && c[|c| - 1] == '`'
    ensures |Unwrap(Fenced(tag, ws, c))| < |Trim(c)|
    ensures Unwrap(Fenced(tag, ws, c)) != Trim(c)
  {
    if tag == "" && ws == [] && JsonTagAt(c, 0) {
      // the leading `json` is read as the tag; c[4..] still ends in a backtick
      BareFenceIsTagged(c);
      TrailingBacktickTagged("json", "", c[4..]);
      TrimKeepsTrimmed(c);
    } else {
      TrailingBacktickTagged(tag, ws, c);
    }
  }

  /** TrailingBacktick where the tag is read as written. */
  lemma TrailingBacktickTagged(tag: string, ws: string, c: string)
    requires tag == "json" || (tag == "" && (ws != [] || !JsonTagAt(c, 0)))
    requires AllSpace(ws) && c != [] && c[|c| - 1] == '`'
    ensures |Unwrap(Fenced(tag, ws, c))| < |Trim(c)|
  {
    var s := Fenced(tag, ws, c);
    FencedLayout(tag, ws, c);
    FencedTag(tag, ws, c);
    ShortCaptureOfLayout(s, tag == "json", 3 + |tag| + |ws|, c);
  }

  /** An untagged block without white space around a text beginning with
      `json` is the same string as a tagged block around the rest. */
  lemma BareFenceIsTagged(c: string)
    requires JsonTagAt(c, 0)
    ensures Fenced("", "", c) == Fenced("json", "", c[4..])
  {
    assert c == c[..4] + c[4..];
  }

  /** Unwrap of a layout as in UnwrapOfLayout whose text c ends in a
      backtick: the capture ends at that backtick at the latest. */
  lemma ShortCaptureOfLayout(s: string, tagged: bool, w: nat, c: string)
    requires FenceAt(s, 0) && JsonTagAt(s, 3) == tagged
    requires 3 + (if tagged then 4 else 0) <= w && |s| == w + |c| + 3
    requires forall j :: 3 + (if tagged then 4 else 0) <= j < w ==> IsSpace(s[j])
    requires s[w..w + |c|] == c && FenceAt(s, w + |c|)
    requires c != [] && c[|c| - 1] == '`'
    ensures |Unwrap(s)| < |Trim(c)|
  {
    var t := 3 + (if tagged then 4 else 0);
    var q := SkipSpaces(s, t);
    LayoutLastBacktick(s, t, w, c);
    TrimFromFirstNonSpace(c, q - w);
    var e := FindFence(s, q).value;
    UnwrapFirstFence(s, tagged, q, e);
  }

  /** `\s*` stops inside c, at its first character that is not white space,
      and the next fence begins before the end of c. */
  lemma LayoutLastBacktick(s: string, t: nat, w: nat, c: string)
    requires t <= w && |s| == w + |c| + 3
    requires forall j :: t <= j < w ==> IsSpace(s[j])
    requires s[w..w + |c|] == c && FenceAt(s, w + |c|)
    requires c != [] && c[|c| - 1] == '`'
    ensures w <= SkipSpaces(s, t) < w + |c|
    ensures AllSpace(c[..SkipSpaces(s, t) - w]) && !IsSpace(c[SkipSpaces(s, t) - w])
    ensures FindFence(s, SkipSpaces(s, t)).Some?
    ensures FindFence(s, SkipSpaces(s, t)).value < w + |c|
  {
    var last := w + |c| - 1;
    var q := SkipSpaces(s, t);
    LayoutSpaces(s, t, w, c);
    assert s[last] == c[|c| - 1];
    assert FenceAt(s, last);
    assert q <= last by {
      assert !IsSpace(s[last]);
    }
    assert s[q] == c[q - w];
  }

  /** Without tag or white space, a text beginning with `json` loses those
      four letters: the regular expression reads them as the tag, so the
      result always differs from trimming the text (for example, the text
      `json{}` unwraps to `{}`). */
  lemma BareJsonTag(c: string)
    requires JsonTagAt(c, 0) && NoFence(c) && c[|c| - 1] != '`'
    ensures Unwrap(Fenced("", "", c)) == Trim(c[4..])
    ensures Unwrap(Fenced("", "", c)) != Trim(c)
  {
    BareFenceIsTagged(c);
    assert NoFence(c[4..]) by {
      forall i | 0 <= i < |c[4..]| ensures !FenceAt(c[4..], i) {
        assert FenceAt(c[4..], i) ==> FenceAt(c, i + 4);
      }
    }
    FenceTransparency("json", "", c[4..]);
    var d := c[4..];
    var b, a2, b2 := TrimEnd(c), TrimStart(d), TrimEnd(d);
    assert TrimStart(c) == 0;
    assert Trim(c) == c[0..b] && Trim(d) == d[a2..b2];
    if a2 < b2 {
      assert d[b2 - 1] == c[4 + b2 - 1];
      assert 4 + b2 <= b;
    }
    assert |Trim(d)| < |Trim(c)|;
  }
}

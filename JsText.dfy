/** The JavaScript notion of white space and `String.prototype.trim`.
    The regular-expression class `\s` and `trim` use the same set of
    characters: the WhiteSpace and LineTerminator code points of ECMAScript. */
module JsText {

  /** A character matched by `\s` and removed by `trim`. */
  predicate IsSpace(c: char)
  {
    c == '\t' || c == '\n' || c == '\U{000B}' || c == '\U{000C}' || c == '\r' ||
    c == ' ' || c == '\U{00A0}' || c == '\U{1680}' ||
    ('\U{2000}' <= c <= '\U{200A}') ||
    c == '\U{2028}' || c == '\U{2029}' || c == '\U{202F}' || c == '\U{205F}' ||
    c == '\U{3000}' || c == '\U{FEFF}'
  }

  predicate AllSpace(s: string)
  {
    forall k :: 0 <= k < |s| ==> IsSpace(s[k])
  }

  /** The end of the longest run of white space that starts at position i. */
  function SkipSpaces(s: string, i: nat): (j: nat)
    requires i <= |s|
    ensures i <= j <= |s|
    ensures forall k :: i <= k < j ==> IsSpace(s[k])
    ensures j == |s| || !IsSpace(s[j])
    decreases |s| - i
  {
    if i == |s| || !IsSpace(s[i]) then i else SkipSpaces(s, i + 1)
  }

  /** The start of the longest run of white space that ends at position j,
      not going below lo. */
  function SkipSpacesBack(s: string, j: nat, lo: nat): (i: nat)
    requires lo <= j <= |s|
    ensures lo <= i <= j
    ensures forall k :: i <= k < j ==> IsSpace(s[k])
    ensures i == lo || !IsSpace(s[i - 1])
    decreases j
  {
    if j == lo || !IsSpace(s[j - 1]) then j else SkipSpacesBack(s, j - 1, lo)
  }

  function TrimStart(s: string): (a: nat)
  {
    SkipSpaces(s, 0)
  }

  function TrimEnd(s: string): (b: nat)
  {
    SkipSpacesBack(s, |s|, TrimStart(s))
  }

  /** `s.trim()`: the text with its leading and trailing white space removed. */
  function Trim(s: string): (r: string)
    ensures |r| <= |s|
    ensures r == [] || (!IsSpace(r[0]) && !IsSpace(r[|r| - 1]))
  {
    var a, b := TrimStart(s), TrimEnd(s);
    assert a < b ==> !IsSpace(s[a]);
    s[a..b]
  }

  /** Trim removes only white space: it keeps a middle part of s whose
      prefix and suffix are white space. */
  lemma TrimRemovesSpace(s: string)
    ensures exists a, b | 0 <= a <= b <= |s| :: Trim(s) == s[a..b] && AllSpace(s[..a]) && AllSpace(s[b..])
  {
    var a, b := TrimStart(s), TrimEnd(s);
    assert AllSpace(s[..a]) && AllSpace(s[b..]);
    assert Trim(s) == s[a..b];
  }

  /** Trim is characterised by its contract: whenever s is a white-space
      prefix, a middle part that neither begins nor ends with white space,
      and a white-space suffix, Trim returns that middle part. */
  lemma TrimUnique(u: string, t: string, v: string)
    requires AllSpace(u) && AllSpace(v)
    requires t == [] || (!IsSpace(t[0]) && !IsSpace(t[|t| - 1]))
    ensures Trim(u + t + v) == t
  {
    var s := u + t + v;
    var a, b := TrimStart(s), TrimEnd(s);
    var e := |u| + |t|;
    assert forall k :: 0 <= k < |u| ==> s[k] == u[k];
    assert forall k :: e <= k < |s| ==> s[k] == v[k - e];
    assert forall k :: 0 <= k < |u| ==> IsSpace(s[k]);
    assert forall k :: e <= k < |s| ==> IsSpace(s[k]);
    if t == [] {
      assert a == |s|;
    } else {
      assert s[|u|] == t[0] && s[e - 1] == t[|t| - 1];
      assert a == |u|;
      assert b == e;
      assert s[a..b] == t;
    }
  }

  /** Removing leading white space first does not change the trimmed text. */
  lemma TrimDropLeading(s: string, k: nat)
    requires k <= |s| && AllSpace(s[..k])
    ensures Trim(s[k..]) == Trim(s)
  {
    var a, b := TrimStart(s), TrimEnd(s);
    var t := s[a..b];
    assert forall j :: 0 <= j < k ==> IsSpace(s[j]) by {
      forall j | 0 <= j < k ensures IsSpace(s[j]) { assert s[..k][j] == s[j]; }
    }
    // a is the end of the longest leading run of white space, so it is at least k
    assert k <= a;
    var u, v := s[k..a], s[b..];
    assert AllSpace(u) by {
      forall j | 0 <= j < |u| ensures IsSpace(u[j]) { assert u[j] == s[k + j]; }
    }
    assert AllSpace(v) by {
      forall j | 0 <= j < |v| ensures IsSpace(v[j]) { assert v[j] == s[b + j]; }
    }
    assert s[k..] == u + t + v;
    TrimUnique(u, t, v);
  }

  /** A text that neither begins nor ends with white space is its own trim. */
  lemma TrimKeepsTrimmed(t: string)
    requires t == [] || (!IsSpace(t[0]) && !IsSpace(t[|t| - 1]))
    ensures Trim(t) == t
  {
    TrimUnique([], t, []);
    assert [] + t + [] == t;
  }

  /** When k is the first character that is not white space and the text
      does not end in white space, trimming drops exactly the first k. */
  lemma TrimFromFirstNonSpace(s: string, k: nat)
    requires k < |s| && AllSpace(s[..k]) && !IsSpace(s[k]) && !IsSpace(s[|s| - 1])
    ensures Trim(s) == s[k..]
  {
    TrimUnique(s[..k], s[k..], []);
    assert s[..k] + s[k..] + [] == s;
  }

  /** Trimming twice is trimming once. */
  lemma TrimIdempotent(s: string)
    ensures Trim(Trim(s)) == Trim(s)
  {
    TrimKeepsTrimmed(Trim(s));
  }
}

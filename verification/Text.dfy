/** Strings as the cleaning and matching rules see them: surrounding whitespace,
    runs of internal whitespace, and code-point order. */
module Text {

  /** The characters Python's `str.isspace` accepts. */
  predicate IsSpace(c: char) {
    || '\t' <= c <= '\r'
    || '\U{1C}' <= c <= ' '
    || c == '\U{85}' || c == '\U{A0}' || c == '\U{1680}'
    || '\U{2000}' <= c <= '\U{200A}'
    || c == '\U{2028}' || c == '\U{2029}' || c == '\U{202F}' || c == '\U{205F}' || c == '\U{3000}'
  }

  /** No whitespace at either end. */
  predicate Stripped(s: string) {
    s == "" || (!IsSpace(s[0]) && !IsSpace(s[|s| - 1]))
  }

  function StripLeft(s: string): (r: string)
    ensures |r| <= |s| && r == s[|s| - |r|..]
    ensures r == "" || !IsSpace(r[0])
  {
    if s != "" && IsSpace(s[0]) then StripLeft(s[1..]) else s
  }

  function StripRight(s: string): (r: string)
    ensures |r| <= |s| && r == s[..|r|]
    ensures r == "" || !IsSpace(r[|r| - 1])
  {
    if s != "" && IsSpace(s[|s| - 1]) then StripRight(s[..|s| - 1]) else s
  }

  function Strip(s: string): (r: string)
    ensures Stripped(r)
    ensures Stripped(s) ==> r == s
  {
    StripRight(StripLeft(s))
  }

  /** Each maximal run of whitespace becomes a single space. */
  function Collapse(s: string): string
    decreases |s|
  {
    if s == "" then ""
    else if IsSpace(s[0]) then " " + Collapse(StripLeft(s[1..]))
    else [s[0]] + Collapse(s[1..])
  }

  /** Strip, then collapse. */
  function Trim(s: string): string {
    Collapse(Strip(s))
  }

  lemma {:induction false} CollapseEnds(s: string)
    requires s != "" && !IsSpace(s[|s| - 1])
    ensures Collapse(s) != "" && Collapse(s)[|Collapse(s)| - 1] == s[|s| - 1]
    ensures !IsSpace(s[0]) ==> Collapse(s)[0] == s[0]
    decreases |s|
  {
    var rest := if IsSpace(s[0]) then StripLeft(s[1..]) else s[1..];
    if rest == "" {
      if IsSpace(s[0]) {
        AllSpaceStrips(s[1..]);
      }
    } else {
      CollapseEnds(rest);
    }
  }

  lemma {:induction false} AllSpaceStrips(s: string)
    requires StripLeft(s) == ""
    ensures forall i :: 0 <= i < |s| ==> IsSpace(s[i])
  {
    if s != "" {
      AllSpaceStrips(s[1..]);
      forall i | 0 <= i < |s|
        ensures IsSpace(s[i])
      {
        if i > 0 {
          assert s[i] == s[1..][i - 1];
        }
      }
    }
  }

  /** Trimming leaves no surrounding whitespace, blanks exactly the blank cells,
      and looks at the stripped value only. */
  lemma TrimProperties(s: string)
    ensures Stripped(Trim(s))
    ensures Trim(s) == "" <==> Strip(s) == ""
    ensures Trim(Strip(s)) == Trim(s)
  {
    var t := Strip(s);
    if t != "" {
      CollapseEnds(t);
    }
  }

  // ----- what stripping and trimming leave

  /** `Strip` takes away whitespace only, and all of it that stands at an end. */
  lemma StripExact(s: string) returns (i: nat, j: nat)
    ensures i <= j <= |s| && Strip(s) == s[i..j] && Stripped(Strip(s))
    ensures forall k :: 0 <= k < i || j <= k < |s| ==> IsSpace(s[k])
  {
    var l := StripLeft(s);
    i := |s| - |l|;
    j := i + |Strip(s)|;
    StripLeftTakesSpace(s);
    StripRightTakesSpace(l);
    forall k | 0 <= k < i || j <= k < |s|
      ensures IsSpace(s[k])
    {
      if j <= k {
        assert s[k] == l[k - i];
      }
    }
  }

  lemma {:induction false} StripLeftTakesSpace(s: string)
    ensures forall k :: 0 <= k < |s| - |StripLeft(s)| ==> IsSpace(s[k])
  {
    if s != "" && IsSpace(s[0]) {
      StripLeftTakesSpace(s[1..]);
      forall k | 0 <= k < |s| - |StripLeft(s)|
        ensures IsSpace(s[k])
      {
        if k > 0 {
          assert s[k] == s[1..][k - 1];
        }
      }
    }
  }

  lemma {:induction false} StripRightTakesSpace(s: string)
    ensures forall k :: |StripRight(s)| <= k < |s| ==> IsSpace(s[k])
  {
    if s != "" && IsSpace(s[|s| - 1]) {
      StripRightTakesSpace(s[..|s| - 1]);
    }
  }

  /** The characters that are not whitespace, in order. */
  function Visible(s: string): (r: string)
    ensures forall k :: 0 <= k < |r| ==> !IsSpace(r[k])
  {
    if s == "" then ""
    else if IsSpace(s[0]) then Visible(s[1..])
    else [s[0]] + Visible(s[1..])
  }

  /** Where the k-th visible character stands. */
  function Place(s: string, k: nat): (i: nat)
    requires k < |Visible(s)|
    ensures i < |s| && s[i] == Visible(s)[k]
  {
    if IsSpace(s[0]) then 1 + Place(s[1..], k)
    else if k == 0 then 0
    else 1 + Place(s[1..], k - 1)
  }

  lemma {:induction false} StripLeftKeeps(s: string, k: nat)
    ensures Visible(StripLeft(s)) == Visible(s)
    ensures k < |Visible(s)| ==> Place(s, k) == |s| - |StripLeft(s)| + Place(StripLeft(s), k)
  {
    if s != "" && IsSpace(s[0]) {
      StripLeftKeeps(s[1..], k);
    }
  }

  lemma {:induction false} VisibleSnoc(s: string, c: char, k: nat)
    ensures Visible(s + [c]) == Visible(s) + if IsSpace(c) then "" else [c]
    ensures k < |Visible(s)| ==> Place(s + [c], k) == Place(s, k)
  {
    if s == "" {
      assert (s + [c])[1..] == "";
    } else {
      assert (s + [c])[0] == s[0] && (s + [c])[1..] == s[1..] + [c];
      VisibleSnoc(s[1..], c, if IsSpace(s[0]) || k == 0 then k else k - 1);
    }
  }

  lemma {:induction false} StripRightKeeps(s: string, k: nat)
    ensures Visible(StripRight(s)) == Visible(s)
    ensures k < |Visible(s)| ==> Place(s, k) == Place(StripRight(s), k)
  {
    if s != "" && IsSpace(s[|s| - 1]) {
      var front := s[..|s| - 1];
      assert s == front + [s[|s| - 1]];
      StripRightKeeps(front, k);
      VisibleSnoc(front, s[|s| - 1], k);
    }
  }

  /** How far apart two neighbouring visible characters stand. */
  function Gap(s: string, k: nat): int
    requires k + 1 < |Visible(s)|
  {
    Place(s, k + 1) - Place(s, k)
  }

  /** Putting a character in front moves the rest by one. */
  lemma InFront(c: char, s: string, k: nat)
    ensures Visible([c] + s) == (if IsSpace(c) then "" else [c]) + Visible(s)
    ensures IsSpace(c) && k < |Visible(s)| ==> Place([c] + s, k) == 1 + Place(s, k)
    ensures !IsSpace(c) ==> Place([c] + s, 0) == 0
    ensures !IsSpace(c) && k < |Visible(s)| ==> Place([c] + s, k + 1) == 1 + Place(s, k)
  {
    assert ([c] + s)[1..] == s;
  }

  lemma {:induction false} CollapseVisible(s: string)
    ensures Visible(Collapse(s)) == Visible(s)
    ensures Visible(s) != "" ==> Place(Collapse(s), 0) == if IsSpace(s[0]) then 1 else 0
    decreases |s|
  {
    hide Visible, Place;
    if s == "" {
      NothingVisible();
    } else {
      var rest := if IsSpace(s[0]) then StripLeft(s[1..]) else s[1..];
      var c := if IsSpace(s[0]) then ' ' else s[0];
      assert s == [s[0]] + s[1..];
      InFront(s[0], s[1..], 0);
      CollapseVisible(rest);
      InFront(c, Collapse(rest), 0);
      if IsSpace(s[0]) {
        StripLeftKeeps(s[1..], 0);
        if rest == "" {
          NothingVisible();
        }
      }
    }
  }

  lemma NothingVisible()
    ensures Visible("") == ""
  {
  }

  lemma GapShift(c: char, s: string, k: nat)
    requires k + 1 < |Visible(s)|
    ensures Visible([c] + s) == (if IsSpace(c) then "" else [c]) + Visible(s)
    ensures IsSpace(c) ==> Gap([c] + s, k) == Gap(s, k)
    ensures !IsSpace(c) ==> Gap([c] + s, k + 1) == Gap(s, k)
  {
    hide Visible, Place, IsSpace;
    InFront(c, s, k);
    InFront(c, s, k + 1);
  }

  /** Only whether something stands between matters to what collapsing makes of it. */
  lemma GapFirst(c: char, s: string, t: string)
    requires !IsSpace(c) && Visible(s) == Visible(t) != ""
    requires Place(t, 0) == if IsSpace(s[0]) then 1 else 0
    ensures |Visible([c] + s)| == |Visible([c] + t)| == 1 + |Visible(s)|
    ensures Gap([c] + t, 0) == if Gap([c] + s, 0) == 1 then 1 else 2
  {
    FirstPlace(s);
    hide Visible, Place, IsSpace;
    InFront(c, s, 0);
    InFront(c, t, 0);
  }

  lemma StripLeftGap(s: string, k: nat)
    requires k + 1 < |Visible(s)|
    ensures Visible(StripLeft(s)) == Visible(s) && Gap(StripLeft(s), k) == Gap(s, k)
  {
    StripLeftKeeps(s, k);
    StripLeftKeeps(s, k + 1);
  }

  lemma CollapseFront(c: char, s: string)
    ensures Collapse([c] + s) == if IsSpace(c) then [' '] + Collapse(StripLeft(s)) else [c] + Collapse(s)
    ensures IsSpace(' ')
  {
    assert ([c] + s)[1..] == s;
  }

  lemma {:induction false} CollapseGap(s: string, k: nat)
    requires k + 1 < |Visible(s)|
    ensures Visible(Collapse(s)) == Visible(s)
    ensures Gap(Collapse(s), k) == if Gap(s, k) == 1 then 1 else 2
    decreases |s|, 1
  {
    CollapseVisible(s);
    var c, rest := s[0], s[1..];
    assert s == [c] + rest;
    CollapseGapFront(c, rest, k);
  }

  lemma {:induction false} CollapseGapFront(c: char, s: string, k: nat)
    requires k + 1 < |Visible([c] + s)| && Visible(Collapse([c] + s)) == Visible([c] + s)
    ensures Gap(Collapse([c] + s), k) == if Gap([c] + s, k) == 1 then 1 else 2
    decreases |s| + 1, 0
  {
    hide Visible, Place, IsSpace, Gap, Collapse, StripLeft;
    CollapseFront(c, s);
    InFront(c, s, 0);
    if IsSpace(c) {
      var after := StripLeft(s);
      GapShift(c, s, k);
      StripLeftGap(s, k);
      CollapseGap(after, k);
      GapShift(' ', Collapse(after), k);
    } else {
      CollapseVisible(s);
      if k == 0 {
        GapFirst(c, s, Collapse(s));
      } else {
        GapShift(c, s, k - 1);
        CollapseGap(s, k - 1);
        GapShift(c, Collapse(s), k - 1);
      }
    }
  }

  lemma FirstPlace(s: string)
    ensures Visible(s) != "" ==> (Place(s, 0) == 0 <==> !IsSpace(s[0]))
  {
  }

  lemma {:induction false} CollapseSpaces(s: string, i: nat)
    requires i < |Collapse(s)| && IsSpace(Collapse(s)[i])
    ensures Collapse(s)[i] == ' '
    ensures i + 1 < |Collapse(s)| ==> !IsSpace(Collapse(s)[i + 1])
    decreases |s|
  {
    if IsSpace(s[0]) {
      var rest := StripLeft(s[1..]);
      if i > 0 {
        CollapseSpaces(rest, i - 1);
      }
    } else {
      CollapseSpaces(s[1..], i - 1);
    }
  }

  /** `t` has the visible characters of `s` in their order; neighbours that touch in `s`
      touch in `t`, all others are one space apart, and no other whitespace is left. */
  ghost predicate KeepsWords(s: string, t: string) {
    && Visible(t) == Visible(s)
    && (forall k :: 0 <= k && k + 1 < |Visible(s)| ==> Gap(t, k) == if Gap(s, k) == 1 then 1 else 2)
    && forall i :: 0 <= i < |t| && IsSpace(t[i]) ==> t[i] == ' ' && (i + 1 < |t| ==> !IsSpace(t[i + 1]))
  }

  /** Trimming normalises whitespace and nothing else. */
  lemma TrimKeepsWords(s: string)
    ensures KeepsWords(s, Trim(s)) && Stripped(Trim(s))
  {
    TrimProperties(s);
    hide Visible, Place, Collapse, Strip, IsSpace, Gap;
    StripKeeps(s, 0);
    CollapseVisible(Strip(s));
    forall k | 0 <= k && k + 1 < |Visible(s)|
      ensures Gap(Trim(s), k) == if Gap(s, k) == 1 then 1 else 2
    {
      StripKeeps(s, k);
      CollapseGap(Strip(s), k);
    }
    forall i | 0 <= i < |Trim(s)| && IsSpace(Trim(s)[i])
      ensures Trim(s)[i] == ' ' && (i + 1 < |Trim(s)| ==> !IsSpace(Trim(s)[i + 1]))
    {
      CollapseSpaces(Strip(s), i);
    }
  }

  lemma StripKeeps(s: string, k: nat)
    ensures Visible(Strip(s)) == Visible(s)
    ensures k + 1 < |Visible(s)| ==> Gap(Strip(s), k) == Gap(s, k)
  {
    StripLeftKeeps(s, k);
    StripLeftKeeps(s, k + 1);
    StripRightKeeps(StripLeft(s), k);
    StripRightKeeps(StripLeft(s), k + 1);
  }

  // ----- code-point order

  predicate Less(a: string, b: string) {
    b != "" && (a == "" || a[0] < b[0] || (a[0] == b[0] && Less(a[1..], b[1..])))
  }

  lemma {:induction false} LessTrans(a: string, b: string, c: string)
    requires Less(a, b) && Less(b, c)
    ensures Less(a, c)
  {
    if a != "" && a[0] == b[0] == c[0] {
      LessTrans(a[1..], b[1..], c[1..]);
    }
  }

  lemma {:induction false} LessIrreflexive(a: string)
    ensures !Less(a, a)
  {
    if a != "" {
      LessIrreflexive(a[1..]);
    }
  }

  lemma {:induction false} LessTotal(a: string, b: string)
    ensures a == b || Less(a, b) || Less(b, a)
  {
    if a != "" && b != "" && a[0] == b[0] {
      LessTotal(a[1..], b[1..]);
      if a[1..] == b[1..] {
        assert a == [a[0]] + a[1..] && b == [b[0]] + b[1..];
      }
    }
  }

  /** One string comes before another if it is cut short of it, or holds the smaller
      character where they first differ. */
  lemma {:induction false} LessMeaning(a: string, b: string)
    ensures Less(a, b) <==>
      exists k: nat :: k <= |a| && k < |b| && a[..k] == b[..k] && (k == |a| || a[k] < b[k])
  {
    if Less(a, b) {
      var k := LessWhere(a, b);
    } else {
      forall k: nat | k <= |a| && k < |b| && a[..k] == b[..k]
        ensures k != |a| && !(a[k] < b[k])
      {
        NotLessWhere(a, b, k);
      }
    }
  }

  lemma {:induction false} LessWhere(a: string, b: string) returns (k: nat)
    requires Less(a, b)
    ensures k <= |a| && k < |b| && a[..k] == b[..k] && (k == |a| || a[k] < b[k])
  {
    if a == "" || a[0] < b[0] {
      k := 0;
    } else {
      k := LessWhere(a[1..], b[1..]);
      assert a[..k + 1] == [a[0]] + a[1..][..k] && b[..k + 1] == [b[0]] + b[1..][..k];
      k := k + 1;
    }
  }

  lemma {:induction false} NotLessWhere(a: string, b: string, k: nat)
    requires !Less(a, b) && k <= |a| && k < |b| && a[..k] == b[..k]
    ensures k != |a| && !(a[k] < b[k])
  {
    if k > 0 {
      assert a[0] == a[..k][0] == b[..k][0] == b[0];
      assert a[1..][..k - 1] == a[..k][1..] && b[1..][..k - 1] == b[..k][1..];
      NotLessWhere(a[1..], b[1..], k - 1);
    }
  }

  ghost predicate SortedKeys(keys: seq<string>) {
    forall i, j :: 0 <= i < j < |keys| ==> Less(keys[i], keys[j])
  }

  method Smallest(s: set<string>) returns (m: string)
    requires s != {}
    ensures m in s && forall k <- s :: k == m || Less(m, k)
  {
    m :| m in s;
    var rest := s - {m};
    while rest != {}
      invariant m in s && rest <= s
      invariant forall k <- s - rest :: k == m || Less(m, k)
    {
      var k :| k in rest;
      rest := rest - {k};
      LessTotal(k, m);
      if Less(k, m) {
        forall j <- s - rest
          ensures j == k || Less(k, j)
        {
          if j != k && j != m {
            LessTrans(k, m, j);
          }
        }
        m := k;
      }
    }
  }

  /** `sorted(keys)`. */
  method Sort(s: set<string>) returns (keys: seq<string>)
    ensures SortedKeys(keys)
    ensures forall k :: k in s <==> k in keys
  {
    keys := [];
    var rest := s;
    while rest != {}
      invariant SortedKeys(keys) && rest <= s
      invariant forall k :: k in s <==> k in keys || k in rest
      invariant forall i, k | 0 <= i < |keys| && k in rest :: Less(keys[i], k)
    {
      var m := Smallest(rest);
      keys := keys + [m];
      rest := rest - {m};
    }
  }
}

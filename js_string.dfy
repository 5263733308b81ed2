/**
 * The JavaScript string primitives the harness relies on: the white-space
 * class shared by `\s` and `String.prototype.trim`, `trim` itself, the
 * `replace(/\s+/g, " ")` collapse, `startsWith`, and `length` measured in
 * UTF-16 code units.  Dafny strings are sequences of Unicode scalar values.
 */
module JsString {
  import opened Seqs

  /** The ECMAScript WhiteSpace and LineTerminator code points: exactly the
      characters matched by `\s` and removed by `trim`. */
  predicate IsWhiteSpace(c: char) {
    || c == '\t' || c == '\n' || c == '\U{000B}' || c == '\U{000C}' || c == '\r'
    || c == ' ' || c == '\U{00A0}' || c == '\U{1680}'
    || ('\U{2000}' <= c <= '\U{200A}')
    || c == '\U{2028}' || c == '\U{2029}' || c == '\U{202F}' || c == '\U{205F}'
    || c == '\U{3000}' || c == '\U{FEFF}'
  }

  /** The characters `\S` matches. */
  predicate NotWhiteSpace(c: char) {
    !IsWhiteSpace(c)
  }

  ghost predicate AllWhiteSpace(s: string) {
    forall i | 0 <= i < |s| :: IsWhiteSpace(s[i])
  }

  /** Neither the first nor the last character is white space. */
  predicate NoEdgeWhiteSpace(s: string) {
    s == [] || (!IsWhiteSpace(s[0]) && !IsWhiteSpace(s[|s| - 1]))
  }

  /** Every white-space character is a plain space and is followed by a
      character that is not white space. */
  ghost predicate SingleSpaced(s: string) {
    && (forall i | 0 <= i < |s| && IsWhiteSpace(s[i]) :: s[i] == ' ')
    && (forall i, j | 0 <= i && j == i + 1 && j < |s| :: !(IsWhiteSpace(s[i]) && IsWhiteSpace(s[j])))
  }

  /** Leading white space removed. */
  function TrimStart(s: string): (r: string)
    ensures |r| <= |s|
    ensures r == [] || !IsWhiteSpace(r[0])
    ensures r != [] ==> r[|r| - 1] == s[|s| - 1]
    ensures r == [] && s != [] ==> IsWhiteSpace(s[|s| - 1])
    ensures s != [] && IsWhiteSpace(s[0]) ==> |r| < |s|
  {
    if s != [] && IsWhiteSpace(s[0]) then TrimStart(s[1..]) else s
  }

  /** Trailing white space removed. */
  function TrimEnd(s: string): (r: string)
    ensures |r| <= |s|
    ensures r == [] || !IsWhiteSpace(r[|r| - 1])
    ensures r != [] ==> r[0] == s[0]
  {
    if s != [] && IsWhiteSpace(s[|s| - 1]) then TrimEnd(s[..|s| - 1]) else s
  }

  /** `TrimStart` drops exactly the longest white-space prefix. */
  lemma {:induction false} TrimStartSlice(s: string)
    ensures TrimStart(s) == s[|s| - |TrimStart(s)|..]
    ensures AllWhiteSpace(s[..|s| - |TrimStart(s)|])
  {
    if s != [] && IsWhiteSpace(s[0]) {
      TrimStartSlice(s[1..]);
      var r := TrimStart(s[1..]);
      assert s[..|s| - |r|] == [s[0]] + s[1..][..|s| - 1 - |r|];
    }
  }

  /** `TrimEnd` drops exactly the longest white-space suffix. */
  lemma {:induction false} TrimEndSlice(s: string)
    ensures TrimEnd(s) == s[..|TrimEnd(s)|]
    ensures AllWhiteSpace(s[|TrimEnd(s)|..])
  {
    if s != [] && IsWhiteSpace(s[|s| - 1]) {
      TrimEndSlice(s[..|s| - 1]);
      var r := TrimEnd(s[..|s| - 1]);
      assert s[|r|..] == s[..|s| - 1][|r|..] + [s[|s| - 1]];
    }
  }

  /** Where `Trim(s)` starts inside `s`. */
  function TrimOffset(s: string): (k: nat)
    ensures k <= |s|
  {
    |s| - |TrimStart(s)|
  }

  /** `String.prototype.trim`: white space dropped at both ends. */
  function Trim(s: string): (r: string)
    ensures NoEdgeWhiteSpace(r)
    ensures |r| <= |s|
    ensures s == [] ==> r == []
  {
    TrimEnd(TrimStart(s))
  }

  /** The trimmed string is the slice of `s` between a white-space prefix and
      a white-space suffix: interior characters are kept as they are. */
  lemma TrimSlice(s: string)
    ensures TrimOffset(s) + |Trim(s)| <= |s|
    ensures Trim(s) == s[TrimOffset(s)..TrimOffset(s) + |Trim(s)|]
    ensures AllWhiteSpace(s[..TrimOffset(s)])
    ensures AllWhiteSpace(s[TrimOffset(s) + |Trim(s)|..])
  {
    var t := TrimStart(s);
    var k := TrimOffset(s);
    TrimStartSlice(s);
    assert t == s[k..];
    TrimEndSlice(t);
    var r := TrimEnd(t);
    assert r == Trim(s);
    assert r == t[..|r|];
    assert t[..|r|] == s[k..k + |r|];
    assert s[k + |r|..] == t[|r|..];
  }

  /** `t` is `s` with a white-space prefix and a white-space suffix removed,
      and what remains neither starts nor ends with white space. */
  ghost predicate IsTrimOf(t: string, s: string) {
    exists i, j | 0 <= i <= j <= |s| ::
      && t == s[i..j]
      && AllWhiteSpace(s[..i]) && AllWhiteSpace(s[j..])
      && NoEdgeWhiteSpace(t)
  }

  /** `trim` removes exactly the white space at both ends. */
  lemma TrimIsTrimOf(s: string)
    ensures IsTrimOf(Trim(s), s)
  {
    TrimSlice(s);
    var i := TrimOffset(s);
    var j := TrimOffset(s) + |Trim(s)|;
    assert Trim(s) == s[i..j];
  }

  /** A string without white space at its ends is its own trim. */
  lemma TrimFixesTrimmed(s: string)
    requires NoEdgeWhiteSpace(s)
    ensures Trim(s) == s
  {
  }

  /** `s.replace(/\s+/g, " ")`: every maximal run of white space, scanned
      left to right, becomes one space. */
  function CollapseWhiteSpace(s: string): (r: string)
    ensures |r| <= |s|
    ensures r == [] <==> s == []
    ensures r != [] ==> (IsWhiteSpace(r[0]) <==> IsWhiteSpace(s[0]))
    ensures r != [] ==> (IsWhiteSpace(r[|r| - 1]) <==> IsWhiteSpace(s[|s| - 1]))
    decreases |s|
  {
    if s == [] then []
    else if IsWhiteSpace(s[0]) then
      " " + CollapseWhiteSpace(TrimStart(s))
    else
      [s[0]] + CollapseWhiteSpace(s[1..])
  }

  /** After the collapse, white space occurs only as single plain spaces. */
  lemma {:induction false} CollapseIsSingleSpaced(s: string)
    ensures SingleSpaced(CollapseWhiteSpace(s))
    decreases |s|
  {
    if s == [] {
    } else if IsWhiteSpace(s[0]) {
      var rest := TrimStart(s);
      CollapseIsSingleSpaced(rest);
      var c := CollapseWhiteSpace(rest);
      assert CollapseWhiteSpace(s) == " " + c;
      assert c != [] ==> !IsWhiteSpace(c[0]);
    } else {
      CollapseIsSingleSpaced(s[1..]);
      assert CollapseWhiteSpace(s) == [s[0]] + CollapseWhiteSpace(s[1..]);
    }
  }

  lemma SingleSpacedTail(s: string)
    requires s != [] && SingleSpaced(s)
    ensures SingleSpaced(s[1..])
  {
    var t := s[1..];
    forall i | 0 <= i < |t| && IsWhiteSpace(t[i]) ensures t[i] == ' ' {
      assert t[i] == s[i + 1];
    }
    forall i, j | 0 <= i && j == i + 1 && j < |t| ensures !(IsWhiteSpace(t[i]) && IsWhiteSpace(t[j])) {
      assert t[i] == s[i + 1] && t[j] == s[j + 1];
    }
  }

  /** A string that is already single-spaced is left unchanged by the collapse. */
  lemma {:induction false} CollapseFixesSingleSpaced(s: string)
    requires SingleSpaced(s)
    ensures CollapseWhiteSpace(s) == s
    decreases |s|
  {
    if s != [] {
      SingleSpacedTail(s);
      CollapseFixesSingleSpaced(s[1..]);
      if IsWhiteSpace(s[0]) {
        assert s[0] == ' ';
        var t := s[1..];
        assert t != [] ==> t[0] == s[1];
        assert TrimStart(t) == t;
        assert TrimStart(s) == t;
      }
    }
  }

  /** The text of `s` once its white space is ignored. */
  function Visible(s: string): (r: string)
    ensures |r| <= |s|
  {
    Filter(s, NotWhiteSpace)
  }

  /** A string made only of white space has no visible text. */
  lemma {:induction false} VisibleAllWhiteSpace(s: string)
    requires AllWhiteSpace(s)
    ensures Visible(s) == []
  {
    if s != [] {
      assert AllWhiteSpace(s[1..]) by {
        forall i | 0 <= i < |s| - 1 ensures IsWhiteSpace(s[1..][i]) {
          assert s[1..][i] == s[i + 1];
        }
      }
      VisibleAllWhiteSpace(s[1..]);
    }
  }

  /** Trimming the start drops no visible character. */
  lemma {:induction false} TrimStartKeepsVisible(s: string)
    ensures Visible(TrimStart(s)) == Visible(s)
  {
    if s != [] && IsWhiteSpace(s[0]) {
      TrimStartKeepsVisible(s[1..]);
      assert s == [s[0]] + s[1..];
      FilterAppend([s[0]], s[1..], NotWhiteSpace);
      assert [s[0]][1..] == [];
    }
  }

  /** `trim` drops no visible character. */
  lemma TrimKeepsVisible(s: string)
    ensures Visible(Trim(s)) == Visible(s)
  {
    TrimSlice(s);
    var i := TrimOffset(s);
    var j := TrimOffset(s) + |Trim(s)|;
    assert s == s[..i] + s[i..j] + s[j..];
    FilterAppend(s[..i] + s[i..j], s[j..], NotWhiteSpace);
    FilterAppend(s[..i], s[i..j], NotWhiteSpace);
    VisibleAllWhiteSpace(s[..i]);
    VisibleAllWhiteSpace(s[j..]);
  }

  /** The collapse keeps every visible character, in order: only white
      space is rewritten. */
  lemma {:induction false} CollapseKeepsVisible(s: string)
    ensures Visible(CollapseWhiteSpace(s)) == Visible(s)
    decreases |s|
  {
    if s == [] {
    } else if IsWhiteSpace(s[0]) {
      var rest := TrimStart(s);
      CollapseKeepsVisible(rest);
      TrimStartKeepsVisible(s);
      FilterAppend(" ", CollapseWhiteSpace(rest), NotWhiteSpace);
      assert " "[1..] == [];
    } else {
      CollapseKeepsVisible(s[1..]);
      assert s == [s[0]] + s[1..];
      FilterAppend([s[0]], s[1..], NotWhiteSpace);
      FilterAppend([s[0]], CollapseWhiteSpace(s[1..]), NotWhiteSpace);
      assert [s[0]][1..] == [];
    }
  }

  /** A white-space run in front of a visible character is trimmed away whole. */
  lemma {:induction false} TrimStartRun(w: string, b: string)
    requires AllWhiteSpace(w)
    requires b == [] || !IsWhiteSpace(b[0])
    ensures TrimStart(w + b) == b
  {
    if w == [] {
      assert w + b == b;
    } else {
      assert (w + b)[1..] == w[1..] + b;
      TrimStartRun(w[1..], b);
    }
  }

  /** Trimming the start of `x + y`, where `x` ends with a visible
      character, only touches `x`. */
  lemma {:induction false} TrimStartAppend(x: string, y: string)
    requires x != [] && !IsWhiteSpace(x[|x| - 1])
    ensures TrimStart(x + y) == TrimStart(x) + y
  {
    if IsWhiteSpace(x[0]) {
      assert (x + y)[1..] == x[1..] + y;
      TrimStartAppend(x[1..], y);
    }
  }

  /** Each maximal white-space run becomes exactly one space: the collapse of
      `a + w + b`, with `w` a non-empty run that `a` and `b` do not extend,
      is the collapse of `a`, one space, and the collapse of `b`. */
  lemma {:induction false} CollapseRun(a: string, w: string, b: string)
    requires w != [] && AllWhiteSpace(w)
    requires a == [] || !IsWhiteSpace(a[|a| - 1])
    requires b == [] || !IsWhiteSpace(b[0])
    ensures CollapseWhiteSpace(a + w + b) == CollapseWhiteSpace(a) + " " + CollapseWhiteSpace(b)
    decreases |a|, 1
  {
    if a == [] {
      assert a + w + b == w + b;
      TrimStartRun(w, b);
      CollapseLead(w + b);
    } else if IsWhiteSpace(a[0]) {
      CollapseRunAfterWhiteSpace(a, w, b);
    } else {
      CollapseRunAfterVisible(a, w, b);
    }
  }

  /** `CollapseRun` when `a` starts with white space. */
  lemma {:induction false} CollapseRunAfterWhiteSpace(a: string, w: string, b: string)
    requires w != [] && AllWhiteSpace(w)
    requires a != [] && IsWhiteSpace(a[0]) && !IsWhiteSpace(a[|a| - 1])
    requires b == [] || !IsWhiteSpace(b[0])
    ensures CollapseWhiteSpace(a + w + b) == CollapseWhiteSpace(a) + " " + CollapseWhiteSpace(b)
    decreases |a|, 0
  {
    var a' := TrimStart(a);
    var rest := w + b;
    var s := a + rest;
    assert s == a + w + b;
    TrimStartAppend(a, rest);
    assert a' + rest == a' + w + b;
    var c' := CollapseWhiteSpace(a');
    var cb := CollapseWhiteSpace(b);
    CollapseRun(a', w, b);
    assert CollapseWhiteSpace(TrimStart(s)) == c' + " " + cb;
    CollapseLead(s);
    CollapseLead(a);
    assert CollapseWhiteSpace(s) == " " + (c' + " " + cb);
    SpaceGlue(" ", CollapseWhiteSpace(s), CollapseWhiteSpace(a), c', cb);
  }

  /** Regrouping for the two cases of `CollapseRun`. */
  lemma SpaceGlue(head: string, whole: string, front: string, mid: string, back: string)
    requires whole == head + (mid + " " + back) && front == head + mid
    ensures whole == front + " " + back
  {
  }

  /** `CollapseRun` when `a` starts with a visible character. */
  lemma {:induction false} CollapseRunAfterVisible(a: string, w: string, b: string)
    requires w != [] && AllWhiteSpace(w)
    requires a != [] && !IsWhiteSpace(a[0]) && !IsWhiteSpace(a[|a| - 1])
    requires b == [] || !IsWhiteSpace(b[0])
    ensures CollapseWhiteSpace(a + w + b) == CollapseWhiteSpace(a) + " " + CollapseWhiteSpace(b)
    decreases |a|, 0
  {
    var t := a[1..];
    var s := a + w + b;
    assert s == [a[0]] + (t + w + b);
    assert a == [a[0]] + t;
    var ct := CollapseWhiteSpace(t);
    var cb := CollapseWhiteSpace(b);
    CollapseRun(t, w, b);
    CollapseCons(a[0], t + w + b);
    CollapseCons(a[0], t);
    assert CollapseWhiteSpace(s) == [a[0]] + (ct + " " + cb);
    SpaceGlue([a[0]], CollapseWhiteSpace(s), CollapseWhiteSpace(a), ct, cb);
  }

  /** The collapse of a string that starts with white space. */
  lemma CollapseLead(s: string)
    requires s != [] && IsWhiteSpace(s[0])
    ensures CollapseWhiteSpace(s) == " " + CollapseWhiteSpace(TrimStart(s))
  {
  }

  /** The collapse of a string that starts with a visible character. */
  lemma CollapseCons(c: char, t: string)
    requires !IsWhiteSpace(c)
    ensures CollapseWhiteSpace([c] + t) == [c] + CollapseWhiteSpace(t)
  {
    assert ([c] + t)[1..] == t;
  }

  /** `s.startsWith(p)`. */
  function StartsWith(s: string, p: string): (b: bool)
    ensures b <==> |p| <= |s| && s[..|p|] == p
  {
    if p == [] then true
    else if s == [] then false
    else s[0] == p[0] && StartsWith(s[1..], p[1..])
  }

  /** `s.length`: the number of UTF-16 code units, two for a code point
      outside the Basic Multilingual Plane. */
  function Utf16Length(s: string): (n: nat)
    ensures |s| <= n <= 2 * |s|
  {
    if s == [] then 0
    else (if s[0] as int >= 0x1_0000 then 2 else 1) + Utf16Length(s[1..])
  }
}

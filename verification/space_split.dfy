/**
 This module models `String.Split(' ')` of .NET as the controller uses it: the
 string is cut at every single space character and EMPTY segments are kept,
 so `"a  b"` gives `["a", "", "b"]`, `" "` gives `["", ""]` and `""` gives
 `[""]`. `Join` (the inverse, `String.Join(" ", ...)`) and `HasToken` (an
 independent, position-based description of the segments) are its partners.
 */
module SpaceSplit {

  /** True iff no string in `segs` contains a space. */
  predicate SpaceFree(segs: seq<string>) {
    forall k :: 0 <= k < |segs| ==> ' ' !in segs[k]
  }

  /** The segments of `s` between consecutive spaces, empty ones included. */
  function SplitSpace(s: string): (r: seq<string>)
    ensures |r| >= 1
    decreases |s|
  {
    if |s| == 0 then [""]
    else
      var rest := SplitSpace(s[1..]);
      if s[0] == ' ' then [""] + rest
      else [[s[0]] + rest[0]] + rest[1..]
  }

  /** No segment produced by `SplitSpace` contains a space. */
  lemma {:induction false} SegmentsSpaceFree(s: string)
    ensures SpaceFree(SplitSpace(s))
    decreases |s|
  {
    if |s| > 0 {
      var rest := SplitSpace(s[1..]);
      SegmentsSpaceFree(s[1..]);
      var r := SplitSpace(s);
      forall k | 0 <= k < |r| ensures ' ' !in r[k] {
        if s[0] == ' ' {
          if k > 0 {
            assert r[k] == rest[k - 1];
          }
        } else if k == 0 {
          assert ' ' !in rest[0];
          assert forall m :: 0 <= m < |r[0]| ==> r[0][m] == ([s[0]] + rest[0])[m];
        } else {
          assert r[k] == rest[k];
        }
      }
    }
  }

  /** The segments of `segs` glued together with one space between neighbours. */
  function Join(segs: seq<string>): (r: string)
    decreases |segs|
  {
    if |segs| == 0 then ""
    else if |segs| == 1 then segs[0]
    else segs[0] + " " + Join(segs[1..])
  }

  /** Splitting and joining again gives back the original string. */
  lemma {:induction false} JoinSplit(s: string)
    ensures Join(SplitSpace(s)) == s
    decreases |s|
  {
    if |s| > 0 {
      var rest := SplitSpace(s[1..]);
      JoinSplit(s[1..]);
      if s[0] == ' ' {
        assert SplitSpace(s) == [""] + rest;
        assert ([""] + rest)[1..] == rest;
        assert s == [' '] + s[1..];
      } else {
        var r := SplitSpace(s);
        assert r[0] == [s[0]] + rest[0];
        assert r[1..] == rest[1..];
        if |rest| == 1 {
          assert s == [s[0]] + s[1..];
        } else {
          assert Join(rest) == rest[0] + " " + Join(rest[1..]);
          assert s == [s[0]] + s[1..];
        }
      }
    }
  }

  /** A string without spaces is a single segment. */
  lemma {:induction false} SplitSpaceFree(a: string)
    requires ' ' !in a
    ensures SplitSpace(a) == [a]
    decreases |a|
  {
    if |a| > 0 {
      assert ' ' !in a[1..] by {
        forall k | 0 <= k < |a[1..]| ensures a[1..][k] != ' ' {
          assert a[1..][k] == a[k + 1];
        }
      }
      SplitSpaceFree(a[1..]);
      assert a == [a[0]] + a[1..];
    }
  }

  /** A leading space closes an empty first segment. */
  lemma SplitConsSpace(t: string)
    ensures SplitSpace([' '] + t) == [""] + SplitSpace(t)
  {
    assert ([' '] + t)[1..] == t;
  }

  /** A leading non-space character extends the first segment. */
  lemma SplitConsOther(ch: char, t: string)
    requires ch != ' '
    ensures SplitSpace([ch] + t) == [[ch] + SplitSpace(t)[0]] + SplitSpace(t)[1..]
  {
    assert ([ch] + t)[1..] == t;
  }

  /** Extending the first segment commutes with appending further segments. */
  lemma ExtendFirst(ch: char, ra: seq<string>, rb: seq<string>)
    requires |ra| >= 1
    ensures [[ch] + (ra + rb)[0]] + (ra + rb)[1..] == [[ch] + ra[0]] + ra[1..] + rb
  {
    assert (ra + rb)[0] == ra[0];
    assert (ra + rb)[1..] == ra[1..] + rb;
  }

  /** Splitting `a + " " + b` splits `a` and `b` independently. */
  lemma {:induction false} SplitAppend(a: string, b: string)
    ensures SplitSpace(a + " " + b) == SplitSpace(a) + SplitSpace(b)
    decreases |a|
  {
    if |a| == 0 {
      assert a + " " + b == [' '] + b;
      SplitConsSpace(b);
    } else {
      var t := a[1..];
      var u := t + " " + b;
      assert a == [a[0]] + t;
      assert a + " " + b == [a[0]] + u;
      SplitAppend(t, b);
      if a[0] == ' ' {
        SplitConsSpace(t);
        SplitConsSpace(u);
      } else {
        SplitConsOther(a[0], t);
        SplitConsOther(a[0], u);
        ExtendFirst(a[0], SplitSpace(t), SplitSpace(b));
      }
    }
  }

  /** Joining space-free segments and splitting again gives back the segments. */
  lemma {:induction false} SplitJoin(segs: seq<string>)
    requires |segs| >= 1
    requires SpaceFree(segs)
    ensures SplitSpace(Join(segs)) == segs
    decreases |segs|
  {
    assert ' ' !in segs[0];
    SplitSpaceFree(segs[0]);
    if |segs| > 1 {
      var rest := segs[1..];
      assert SpaceFree(rest) by {
        forall k | 0 <= k < |rest| ensures ' ' !in rest[k] {
          assert rest[k] == segs[k + 1];
        }
      }
      SplitJoin(rest);
      SplitAppend(segs[0], Join(rest));
      assert segs == [segs[0]] + rest;
    }
  }

  /**
   `c[i..j]` is a whole token of `c`: it holds no space and is bounded on each
   side by a space or by an end of `c`.
   */
  ghost predicate TokenAt(c: string, i: int, j: int) {
    && 0 <= i <= j <= |c|
    && (i == 0 || c[i - 1] == ' ')
    && (j == |c| || c[j] == ' ')
    && ' ' !in c[i..j]
  }

  /** `t` occurs in `c` as a whole token. */
  ghost predicate HasToken(c: string, t: string) {
    exists i, j :: TokenAt(c, i, j) && c[i..j] == t
  }

  /** In a space-free string the only whole token is the string itself. */
  lemma OnlyTokenOfSpaceFree(a: string, i: int, j: int)
    requires ' ' !in a
    requires TokenAt(a, i, j)
    ensures i == 0 && j == |a|
  {
  }

  /** A token of `a + " " + r` that starts inside `a` is `a` itself. */
  lemma LeftToken(a: string, r: string, i: int, j: int)
    requires ' ' !in a
    requires TokenAt(a + " " + r, i, j)
    requires i <= |a|
    ensures i == 0 && j == |a|
  {
    var c := a + " " + r;
    assert c[|a|] == ' ';
    forall k | 0 <= k < |a| ensures c[k] == a[k] && c[k] != ' ' {
    }
    forall k | i <= k < j ensures c[k] != ' ' {
      assert c[i..j][k - i] == c[k];
    }
  }

  /** A token of `a + " " + r` that starts after the separator is a token of `r`. */
  lemma RightToken(a: string, r: string, i: int, j: int)
    requires TokenAt(a + " " + r, i, j)
    requires i > |a|
    ensures TokenAt(r, i - |a| - 1, j - |a| - 1)
    ensures (a + " " + r)[i..j] == r[i - |a| - 1..j - |a| - 1]
  {
    var c := a + " " + r;
    var d := |a| + 1;
    var i', j' := i - d, j - d;
    assert 0 <= i' <= j' <= |r|;
    assert c[i..j] == r[i'..j'];
    assert i' == 0 || r[i' - 1] == ' ' by {
      if i' > 0 {
        assert r[i' - 1] == c[i - 1];
      }
    }
    assert j' == |r| || r[j'] == ' ' by {
      if j' < |r| {
        assert r[j'] == c[j];
      }
    }
  }

  /** A token of `r` stays a token of `a + " " + r`, shifted past the separator. */
  lemma ShiftToken(a: string, r: string, i: int, j: int)
    requires TokenAt(r, i, j)
    ensures TokenAt(a + " " + r, i + |a| + 1, j + |a| + 1)
    ensures (a + " " + r)[i + |a| + 1..j + |a| + 1] == r[i..j]
  {
    var c := a + " " + r;
    var d := |a| + 1;
    var i', j' := i + d, j + d;
    assert 0 <= i' <= j' <= |c|;
    assert c[i'..j'] == r[i..j];
    assert c[i' - 1] == ' ' by {
      if i == 0 {
        assert c[|a|] == ' ';
      } else {
        assert c[i' - 1] == r[i - 1];
      }
    }
    assert j' == |c| || c[j'] == ' ' by {
      if j < |r| {
        assert c[j'] == r[j];
      }
    }
  }

  /** The segments of space-free `segs` are exactly the whole tokens of their join. */
  lemma {:induction false} JoinTokens(segs: seq<string>, t: string)
    requires |segs| >= 1
    requires SpaceFree(segs)
    ensures t in segs <==> HasToken(Join(segs), t)
    decreases |segs|
  {
    var a := segs[0];
    var c := Join(segs);
    assert ' ' !in a;
    if |segs| == 1 {
      assert c == a;
      if t in segs {
        assert TokenAt(c, 0, |a|) && c[0..|a|] == t;
      }
      if HasToken(c, t) {
        var i, j :| TokenAt(c, i, j) && c[i..j] == t;
        OnlyTokenOfSpaceFree(a, i, j);
        assert c[i..j] == a;
      }
    } else {
      var rest := segs[1..];
      var r := Join(rest);
      assert c == a + " " + r;
      assert segs == [a] + rest;
      assert SpaceFree(rest) by {
        forall k | 0 <= k < |rest| ensures ' ' !in rest[k] {
          assert rest[k] == segs[k + 1];
        }
      }
      JoinTokens(rest, t);
      if t == a {
        assert c[0..|a|] == a;
        assert c[|a|] == ' ';
        assert TokenAt(c, 0, |a|);
      } else if t in rest {
        var i, j :| TokenAt(r, i, j) && r[i..j] == t;
        ShiftToken(a, r, i, j);
      }
      if HasToken(c, t) {
        var i, j :| TokenAt(c, i, j) && c[i..j] == t;
        if i <= |a| {
          LeftToken(a, r, i, j);
          assert c[0..|a|] == a;
        } else {
          RightToken(a, r, i, j);
          assert HasToken(r, t);
        }
      }
    }
  }

  /** The segments `SplitSpace` yields are exactly the whole tokens of the string. */
  lemma SegmentIffToken(c: string, t: string)
    ensures t in SplitSpace(c) <==> HasToken(c, t)
  {
    JoinSplit(c);
    SegmentsSpaceFree(c);
    JoinTokens(SplitSpace(c), t);
  }

  /** Concrete instance: consecutive spaces produce an empty segment. */
  lemma SplitKeepsEmptySegments()
    ensures SplitSpace("a  b") == ["a", "", "b"]
    ensures "" in SplitSpace("a  b")
  {
    assert ' ' !in "a" && ' ' !in "b";
    SplitSpaceFree("a");
    SplitSpaceFree("b");
    SplitSpaceFree("");
    assert " b" == "" + " " + "b";
    SplitAppend("", "b");
    assert "a  b" == "a" + " " + " b";
    SplitAppend("a", " b");
  }
}

/**
  The part of Rust's `std::path::Path` that the service relies on: splitting a
  path into components and taking the last one with `file_name`.  On Unix the
  only separator is '/'; empty components (repeated or trailing '/') and `.`
  components after the first are dropped, and `file_name` answers `None` when
  the path has no component left or its last component is `..`.
*/
module PathNames {
  import opened Types

  /** A single normal path component: what `file_name` can return. */
  predicate NormalName(n: string) {
    n != "" && n != "." && n != ".." && '/' !in n
  }

  /** The text between separators, empty segments included, left to right. */
  function Split(p: string): (segs: seq<string>)
    ensures |segs| >= 1
  {
    if p == [] then [""]
    else
      var init := Split(p[..|p| - 1]);
      if p[|p| - 1] == '/' then init + [""]
      else init[..|init| - 1] + [init[|init| - 1] + [p[|p| - 1]]]
  }

  /** The inverse of Split: the segments put back together with '/'. */
  function Join(segs: seq<string>): string
    requires |segs| >= 1
  {
    if |segs| == 1 then segs[0] else Join(segs[..|segs| - 1]) + "/" + segs[|segs| - 1]
  }

  /** The components `Path::components` yields, minus the root and `.` ones. */
  function Normalize(segs: seq<string>): (cs: seq<string>)
    ensures |cs| <= |segs|
    ensures forall k :: 0 <= k < |cs| ==> cs[k] != "" && cs[k] != "." && cs[k] in segs
  {
    if segs == [] then []
    else
      var rest := Normalize(segs[..|segs| - 1]);
      var last := segs[|segs| - 1];
      if last == "" || last == "." then rest else rest + [last]
  }

  /** `Path::new(p).file_name()`. */
  function FileName(p: string): (r: Option<string>)
    ensures r.Some? ==> NormalName(r.value) && r.value in Split(p)
  {
    SplitNoSeparator(p);
    var cs := Normalize(Split(p));
    if cs == [] || cs[|cs| - 1] == ".." then None else Some(cs[|cs| - 1])
  }

  /** One more character: a separator opens a new segment, anything else lengthens the last. */
  lemma SplitSnoc(q: string, c: char)
    ensures var s := Split(q);
            Split(q + [c]) == if c == '/' then s + [""] else s[..|s| - 1] + [s[|s| - 1] + [c]]
  {
    assert (q + [c])[..|q|] == q;
  }

  lemma LastGrows(s: seq<string>, t: string, c: char)
    requires |s| >= 1
    ensures var mid := s[..|s| - 1] + [s[|s| - 1] + t];
            mid[..|mid| - 1] + [mid[|mid| - 1] + [c]] == s[..|s| - 1] + [s[|s| - 1] + (t + [c])]
  {
    var mid := s[..|s| - 1] + [s[|s| - 1] + t];
    assert mid[..|mid| - 1] == s[..|s| - 1];
    assert (s[|s| - 1] + t) + [c] == s[|s| - 1] + (t + [c]);
  }

  /** Appending text without a separator only lengthens the last segment. */
  lemma {:induction false} SplitExtend(p: string, t: string)
    requires '/' !in t
    ensures var s := Split(p);
            Split(p + t) == s[..|s| - 1] + [s[|s| - 1] + t]
  {
    var s := Split(p);
    if t == [] {
      assert p + t == p;
      assert s[..|s| - 1] + [s[|s| - 1]] == s;
      assert s[|s| - 1] + t == s[|s| - 1];
    } else {
      SnocAppend(p, t);
      SplitExtend(p, t[..|t| - 1]);
      SplitExtendLast(p, t);
    }
  }

  lemma SplitExtendLast(p: string, t: string)
    requires t != [] && '/' !in t
    requires p + t == (p + t[..|t| - 1]) + [t[|t| - 1]]
    requires var s := Split(p);
             Split(p + t[..|t| - 1]) == s[..|s| - 1] + [s[|s| - 1] + t[..|t| - 1]]
    ensures var s := Split(p);
            Split(p + t) == s[..|s| - 1] + [s[|s| - 1] + t]
  {
    var t', c := t[..|t| - 1], t[|t| - 1];
    assert c in t;
    SplitSnoc(p + t', c);
    LastGrows(Split(p), t', c);
    SnocLast(t);
  }

  /** `p + t` is `p` plus all of `t` but its last character, plus that character; the first part has no separator when `t` has none. */
  lemma SnocAppend(p: string, t: string)
    requires t != []
    ensures p + t == (p + t[..|t| - 1]) + [t[|t| - 1]]
    ensures '/' !in t ==> '/' !in t[..|t| - 1]
  {
    SnocLast(t);
    if '/' !in t {
      assert forall x :: x in t[..|t| - 1] ==> x in t;
    }
  }

  /** No segment of a split path contains the separator. */
  lemma {:induction false} SplitNoSeparator(p: string)
    ensures forall k :: 0 <= k < |Split(p)| ==> '/' !in Split(p)[k]
  {
    if p != [] {
      var q, c := p[..|p| - 1], p[|p| - 1];
      assert p == q + [c];
      SplitNoSeparator(q);
      SplitSnoc(q, c);
      var s := Split(q);
      if c != '/' {
        assert '/' !in s[|s| - 1] + [c];
      }
    }
  }

  /** Appending a separator and a segment adds exactly that segment. */
  lemma SplitAppend(p: string, n: string)
    requires '/' !in n
    ensures Split(p + "/" + n) == Split(p) + [n]
  {
    var q := p + "/";
    SplitSnoc(p, '/');
    assert Split(q) == Split(p) + [""];
    SplitExtend(q, n);
    var s := Split(q);
    assert s[..|s| - 1] == Split(p);
    assert "" + n == n;
    assert q + n == p + "/" + n;
  }

  lemma JoinExtendLast(segs: seq<string>, t: string)
    requires |segs| >= 1
    ensures Join(segs[..|segs| - 1] + [segs[|segs| - 1] + t]) == Join(segs) + t
  {
    var segs' := segs[..|segs| - 1] + [segs[|segs| - 1] + t];
    if |segs| > 1 {
      assert segs'[..|segs'| - 1] == segs[..|segs| - 1];
    }
  }

  /** Splitting loses nothing: joining the segments gives the path back. */
  lemma {:induction false} JoinSplit(p: string)
    ensures Join(Split(p)) == p
  {
    if p != [] {
      JoinSplit(p[..|p| - 1]);
      JoinSplitLast(p);
    }
  }

  lemma JoinSplitLast(p: string)
    requires p != []
    requires Join(Split(p[..|p| - 1])) == p[..|p| - 1]
    ensures Join(Split(p)) == p
  {
    var q, c := p[..|p| - 1], p[|p| - 1];
    SnocLast(p);
    var init := Split(q);
    if c == '/' {
      var segs := init + [""];
      assert Split(p) == segs;
      assert segs[..|segs| - 1] == init;
      assert Join(segs) == q + "/" + "";
    } else {
      assert Split(p) == init[..|init| - 1] + [init[|init| - 1] + [c]];
      JoinExtendLast(init, [c]);
    }
  }

  lemma SnocLast(p: string)
    requires p != []
    ensures p == p[..|p| - 1] + [p[|p| - 1]]
  {
  }

  /** Joining separator-free segments and splitting again gives them back. */
  lemma {:induction false} SplitJoin(segs: seq<string>)
    requires |segs| >= 1
    requires forall k :: 0 <= k < |segs| ==> '/' !in segs[k]
    ensures Split(Join(segs)) == segs
  {
    if |segs| == 1 {
      SplitExtend("", segs[0]);
      assert "" + segs[0] == segs[0];
    } else {
      var init := segs[..|segs| - 1];
      SplitJoin(init);
      SplitAppend(Join(init), segs[|segs| - 1]);
      assert init + [segs[|segs| - 1]] == segs;
    }
  }

  /** Normalize drops one trailing empty or `.` segment and keeps any other. */
  lemma NormalizeSnoc(segs: seq<string>, x: string)
    ensures Normalize(segs + [x]) == if x == "" || x == "." then Normalize(segs) else Normalize(segs) + [x]
  {
    assert (segs + [x])[..|segs|] == segs;
  }

  /** A path made of one normal component is its own file name. */
  lemma FileNameOfName(n: string)
    requires NormalName(n)
    ensures FileName(n) == Some(n)
  {
    assert Split(n) == [n] by {
      SplitExtend("", n);
      assert "" + n == n;
      assert [""][..0] == [];
    }
    assert Normalize([n]) == [n] by {
      NormalizeSnoc([], n);
      assert [] + [n] == [n];
    }
  }

  /** `file_name` of `p/n` is `n` for every normal component `n`. */
  lemma FileNameOfChild(p: string, n: string)
    requires NormalName(n)
    ensures FileName(p + "/" + n) == Some(n)
  {
    SplitAppend(p, n);
    NormalizeSnoc(Split(p), n);
  }

  /** A trailing '/' and a trailing `/.` are ignored. */
  lemma FileNameIgnoresTrailing(p: string)
    ensures FileName(p + "/") == FileName(p)
    ensures FileName(p + "/.") == FileName(p)
  {
    assert Normalize(Split(p + "/")) == Normalize(Split(p)) by {
      SplitAppend(p, "");
      assert p + "/" + "" == p + "/";
      NormalizeSnoc(Split(p), "");
    }
    assert Normalize(Split(p + "/.")) == Normalize(Split(p)) by {
      SplitAppend(p, ".");
      assert p + "/" + "." == p + "/.";
      NormalizeSnoc(Split(p), ".");
    }
  }

  /** No file name for the root, the empty path, or a path ending in `..`. */
  lemma NoFileName(p: string)
    ensures FileName("") == None
    ensures FileName("/") == None
    ensures FileName(p + "/..") == None
  {
    assert Normalize(Split("")) == [] by {
      NormalizeSnoc([], "");
      assert [] + [""] == [""];
    }
    assert FileName("/") == None by {
      SplitAppend("", "");
      assert "" + "/" + "" == "/";
      assert [""] + [""] == ["", ""];
      NormalizeSnoc([""], "");
    }
    assert FileName(p + "/..") == None by {
      SplitAppend(p, "..");
      assert p + "/" + ".." == p + "/..";
      NormalizeSnoc(Split(p), "..");
    }
  }
}

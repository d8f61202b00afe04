/** Optional values and the part of Python's string handling that the agent relies on. */
module Text {

  datatype Option<+T> = None | Some(value: T)

  /** The characters removed by Python's `str.strip()`. */
  predicate IsSpace(c: char) {
    || '\U{0009}' <= c <= '\U{000D}'
    || '\U{001C}' <= c <= '\U{0020}'
    || c in {'\U{0085}', '\U{00A0}', '\U{1680}', '\U{2028}', '\U{2029}', '\U{202F}', '\U{205F}', '\U{3000}'}
    || '\U{2000}' <= c <= '\U{200A}'
  }

  /** The 29 code points for which Python's `str.isspace` holds. */
  lemma SpaceExactly(c: char)
    ensures IsSpace(c) <==> c as int in {
      9, 10, 11, 12, 13, 28, 29, 30, 31, 32, 133, 160, 5760, 8192, 8193, 8194, 8195, 8196, 8197, 8198, 8199, 8200, 8201,
      8202, 8232, 8233, 8239, 8287, 12288}
  {
  }

  predicate Trimmed(s: string) {
    s == "" || (!IsSpace(s[0]) && !IsSpace(s[|s| - 1]))
  }

  function StripLeft(s: string): (r: string)
    ensures r == "" || !IsSpace(r[0])
    ensures s != "" && !IsSpace(s[|s| - 1]) ==> r != "" && r[|r| - 1] == s[|s| - 1]
    ensures s == "" || !IsSpace(s[0]) ==> r == s
  {
    if s != "" && IsSpace(s[0]) then StripLeft(s[1..]) else s
  }

  function StripRight(s: string): (r: string)
    ensures r == "" || !IsSpace(r[|r| - 1])
    ensures s != "" && !IsSpace(s[0]) ==> r != "" && r[0] == s[0]
    ensures s == "" || !IsSpace(s[|s| - 1]) ==> r == s
  {
    if s != "" && IsSpace(s[|s| - 1]) then StripRight(s[..|s| - 1]) else s
  }

  /** `s.strip()`: the result carries no outer white space, and stripping it again is free. */
  function Strip(s: string): (r: string)
    ensures Trimmed(r)
    ensures Trimmed(s) ==> r == s
  {
    StripRight(StripLeft(s))
  }

  predicate AllSpace(s: string) {
    forall c :: c in s ==> IsSpace(c)
  }

  lemma {:induction false} LeftOuter(s: string) returns (outer: string)
    ensures s == outer + StripLeft(s) && AllSpace(outer)
  {
    if s != "" && IsSpace(s[0]) {
      var rest := LeftOuter(s[1..]);
      outer := [s[0]] + rest;
      assert s == [s[0]] + s[1..];
    } else {
      outer := "";
    }
  }

  lemma {:induction false} RightOuter(s: string) returns (outer: string)
    ensures s == StripRight(s) + outer && AllSpace(outer)
  {
    if s != "" && IsSpace(s[|s| - 1]) {
      var rest := RightOuter(s[..|s| - 1]);
      outer := rest + [s[|s| - 1]];
      assert s == s[..|s| - 1] + [s[|s| - 1]];
    } else {
      outer := "";
    }
  }

  /** Stripping removes white space at both ends and nothing else. */
  lemma StripIsInner(s: string) returns (left: string, right: string)
    ensures s == left + Strip(s) + right && AllSpace(left) && AllSpace(right) && Trimmed(Strip(s))
  {
    left := LeftOuter(s);
    right := RightOuter(StripLeft(s));
    assert left + (Strip(s) + right) == left + Strip(s) + right;
  }

  /** `t` is `s` without the white space around it. */
  ghost predicate IsInner(s: string, t: string) {
    Trimmed(t) && exists left, right :: s == left + t + right && AllSpace(left) && AllSpace(right)
  }

  lemma {:induction false} LeftGoes(left: string, s: string)
    requires AllSpace(left)
    ensures StripLeft(left + s) == StripLeft(s)
  {
    if left != "" {
      assert (left + s)[1..] == left[1..] + s;
      LeftGoes(left[1..], s);
    } else {
      assert left + s == s;
    }
  }

  lemma {:induction false} RightGoes(s: string, right: string)
    requires AllSpace(right)
    ensures StripRight(s + right) == StripRight(s)
  {
    if right != "" {
      var init := right[..|right| - 1];
      assert (s + right)[..|s + right| - 1] == s + init;
      RightGoes(s, init);
    } else {
      assert s + right == s;
    }
  }

  lemma {:induction false} AllGoes(s: string)
    requires AllSpace(s)
    ensures StripLeft(s) == ""
  {
    if s != "" {
      AllGoes(s[1..]);
    }
  }

  /** What `strip` returns, told from both ends. */
  lemma InnerIsStrip(s: string, t: string)
    ensures IsInner(s, t) <==> t == Strip(s)
  {
    var left, right := StripIsInner(s);
    if IsInner(s, t) {
      left, right :| s == left + t + right && AllSpace(left) && AllSpace(right);
      assert s == left + (t + right);
      LeftGoes(left, t + right);
      if t == "" {
        assert t + right == right;
        AllGoes(right);
      } else {
        assert !IsSpace((t + right)[0]);
        RightGoes(t, right);
      }
    }
  }

  lemma BlankExactly(s: string)
    ensures Strip(s) == "" <==> AllSpace(s)
  {
    hide Strip;
    var left, right := StripIsInner(s);
    assert forall c :: c in s <==> c in left || c in Strip(s) || c in right;
  }
}

/** Lua long-bracket quoting, `toLuaString` (build/bundle.js and bundle.js):
    the content is wrapped as `[=*[ ... ]=*]` with the shortest run of `=`
    for which neither bracket occurs in the content. */
module LuaString {
  import opened Strings

  /** A run of `n` equals signs. */
  function Equals(n: nat): string
  {
    Repeat('=', n)
  }

  /** The opening long bracket of level `n`, `[` + `=`*n + `[`. */
  function Opener(n: nat): string
  {
    "[" + Equals(n) + "["
  }

  /** The closing long bracket of level `n`, `]` + `=`*n + `]`. */
  function Closer(n: nat): string
  {
    "]" + Equals(n) + "]"
  }

  /** Level `n` is usable: neither bracket of that level occurs in `s`. */
  predicate FreeLevel(s: string, n: nat)
  {
    !Contains(s, Opener(n)) && !Contains(s, Closer(n))
  }

  /** The wrapped text. */
  function LongBracket(s: string, n: nat): string
  {
    Opener(n) + s + Closer(n)
  }

  /** A pattern found in `s` is no longer than `s`. */
  lemma ContainsFits(s: string, p: string)
    requires Contains(s, p)
    ensures |p| <= |s|
  {
  }

  /** `toLuaString(str)`: grow the run of `=` until neither bracket occurs
      in `str`, then wrap. The run chosen is the shortest usable one and is
      never longer than `str`. */
  method ToLuaString(str: string) returns (r: string)
    ensures exists n: nat ::
              && n <= |str|
              && r == LongBracket(str, n)
              && FreeLevel(str, n)
              && forall m: nat :: m < n ==> !FreeLevel(str, m)
  {
    var equals := "";
    while Contains(str, "[" + equals + "[") || Contains(str, "]" + equals + "]")
      invariant equals == Equals(|equals|) && |equals| <= |str|
      invariant forall m: nat :: m < |equals| ==> !FreeLevel(str, m)
      decreases |str| - |equals|
    {
      assert !FreeLevel(str, |equals|);
      if Contains(str, "[" + equals + "[") {
        ContainsFits(str, "[" + equals + "[");
      } else {
        ContainsFits(str, "]" + equals + "]");
      }
      equals := equals + "=";
    }
    r := "[" + equals + "[" + str + "]" + equals + "]";
    assert FreeLevel(str, |equals|);
  }

  /** The shortest usable level is unique, so both copies of `toLuaString`
      pick the same brackets for the same content. */
  lemma ShortestLevelUnique(s: string, n1: nat, n2: nat)
    requires FreeLevel(s, n1) && forall m: nat :: m < n1 ==> !FreeLevel(s, m)
    requires FreeLevel(s, n2) && forall m: nat :: m < n2 ==> !FreeLevel(s, m)
    ensures n1 == n2
  {
  }

  /** The check looks at the content alone: for `a]` level 0 is usable, so
      the result is `[[a]]]`, in which the content's own `]` and the
      closer's first `]` already form a closing bracket. */
  lemma CloserFormedAtTheSeam()
    ensures FreeLevel("a]", 0)
    ensures LongBracket("a]", 0) == "[[a]]]"
    ensures Contains("a]" + "]", Closer(0))
  {
    assert Opener(0) == "[[" && Closer(0) == "]]";
    forall i | 0 <= i <= 2
      ensures !IsPrefix("[[", "a]"[i..]) && !IsPrefix("]]", "a]"[i..])
    {
      if i == 0 {
        assert "a]"[i..][0] == 'a';
      } else {
        assert |"a]"[i..]| < 2;
      }
    }
    assert IsPrefix("]]", ("a]" + "]")[1..]);
  }
}

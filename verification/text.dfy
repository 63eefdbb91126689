/** The two string operations the compose form's validation uses:
    `String.prototype.trim` and `replace(/<[^>]*>/g, '')`. */
module Text {
  import Seqs

  /** The characters `trim` removes: the ECMAScript WhiteSpace set (tab,
      vertical tab, form feed, space, no-break space, byte-order mark and
      the rest of Unicode category Zs) and the LineTerminator set (line
      feed, carriage return, line and paragraph separators). */
  const Spaces: set<char> := {
    '\t', '\n', '\r', ' ', '\U{000B}', '\U{000C}', '\U{00A0}', '\U{1680}',
    '\U{2000}', '\U{2001}', '\U{2002}', '\U{2003}', '\U{2004}', '\U{2005}',
    '\U{2006}', '\U{2007}', '\U{2008}', '\U{2009}', '\U{200A}',
    '\U{2028}', '\U{2029}', '\U{202F}', '\U{205F}', '\U{3000}', '\U{FEFF}'
  }

  predicate IsSpace(c: char) {
    c in Spaces
  }

  /** Every character is whitespace (the empty string included). */
  predicate Blank(s: string) {
    forall i :: 0 <= i < |s| ==> IsSpace(s[i])
  }

  /** Drops leading whitespace: a suffix of `s`, preceded by whitespace
      only, that starts with a non-space (or is empty). */
  function TrimStart(s: string): (r: string)
    ensures |r| <= |s| && r == s[|s| - |r|..]
    ensures Blank(s[..|s| - |r|])
    ensures r == [] || !IsSpace(r[0])
  {
    if s != [] && IsSpace(s[0]) then
      var r := TrimStart(s[1..]);
      assert s[1..][..|s| - 1 - |r|] == s[1..|s| - |r|];
      r
    else s
  }

  /** Drops trailing whitespace: a prefix of `s`, followed by whitespace
      only, that ends with a non-space (or is empty). */
  function TrimEnd(s: string): (r: string)
    ensures |r| <= |s| && r == s[..|r|]
    ensures Blank(s[|r|..])
    ensures r == [] || !IsSpace(r[|r| - 1])
  {
    if s != [] && IsSpace(s[|s| - 1]) then
      var r := TrimEnd(s[..|s| - 1]);
      assert s[..|s| - 1][|r|..] == s[|r|..|s| - 1];
      assert s[|r|..] == s[|r|..|s| - 1] + [s[|s| - 1]];
      r
    else s
  }

  function Trim(s: string): string {
    TrimEnd(TrimStart(s))
  }

  lemma TrimStartEmptyIffBlank(s: string)
    ensures TrimStart(s) == [] <==> Blank(s)
  {
    var r := TrimStart(s);
    if r != [] {
      assert s[|s| - |r|] == r[0];
    } else {
      assert s[..|s|] == s;
    }
  }

  lemma TrimEndEmptyIffBlank(s: string)
    ensures TrimEnd(s) == [] <==> Blank(s)
  {
    var r := TrimEnd(s);
    if r != [] {
      assert s[|r| - 1] == r[|r| - 1];
    } else {
      assert s[0..] == s;
    }
  }

  lemma BlankConcat(x: string, y: string)
    ensures Blank(x + y) <==> Blank(x) && Blank(y)
  {
    if Blank(x + y) {
      forall k | 0 <= k < |x|
        ensures IsSpace(x[k])
      {
        assert x[k] == (x + y)[k];
      }
      forall k | 0 <= k < |y|
        ensures IsSpace(y[k])
      {
        assert y[k] == (x + y)[|x| + k];
      }
    }
    if Blank(x) && Blank(y) {
      forall k | 0 <= k < |x + y|
        ensures IsSpace((x + y)[k])
      {
        if k < |x| {
          assert (x + y)[k] == x[k];
        } else {
          assert (x + y)[k] == y[k - |x|];
        }
      }
    }
  }

  /** A string trims to nothing exactly when it is all whitespace. */
  lemma TrimmedEmptyIffBlank(s: string)
    ensures Trim(s) == [] <==> Blank(s)
  {
    var a := TrimStart(s);
    var i := |s| - |a|;
    var lead := s[..i];
    assert Blank(lead);
    assert s == lead + a;
    BlankConcat(lead, a);
    assert Blank(s) <==> Blank(a);
    TrimEndEmptyIffBlank(a);
    assert Trim(s) == TrimEnd(a);
  }

  /** Trimming removes only whitespace, from both ends, and keeps the middle
      part of the string, which neither starts nor ends with whitespace. */
  lemma TrimKeepsMiddle(s: string)
    ensures Trim(s) != [] ==> !IsSpace(Trim(s)[0]) && !IsSpace(Trim(s)[|Trim(s)| - 1])
    ensures exists i, j ::
      0 <= i <= j <= |s| && Trim(s) == s[i..j] && Blank(s[..i]) && Blank(s[j..])
  {
    var a := TrimStart(s);
    var r := TrimEnd(a);
    var i := |s| - |a|;
    if r != [] {
      assert r[0] == a[0];
    }
    var j := i + |r|;
    assert r == s[i..j];
    assert s[j..] == a[|r|..];
    assert Blank(s[..i]) && Blank(s[j..]);
  }

  /** The first tag of `s` starting at `s[0]`: when `s` opens with '<' and
      a '>' follows somewhere, the length of the run `<...>` through the
      first such '>'. */
  function TagLength(s: string): (r: nat)
    ensures r > 0 ==> 2 <= r <= |s| && s[0] == '<' && s[r - 1] == '>'
    ensures r > 0 ==> forall k :: 1 <= k < r - 1 ==> s[k] != '>'
    ensures r == 0 <==> s == [] || s[0] != '<' || '>' !in s[1..]
  {
    if s == [] || s[0] != '<' then 0
    else
      match Seqs.FindIndex(s[1..], (c: char) => c == '>')
      case None => 0
      case Some(k) => k + 2
  }

  /** No '<' is followed, anywhere later, by a '>'. */
  predicate NoTags(s: string) {
    forall i, j :: 0 <= i < j < |s| && s[i] == '<' ==> s[j] != '>'
  }

  /** `replace(/<[^>]*>/g, '')`: scanning left to right, every '<' that has
      a '>' after it is removed together with everything up to and
      including the first such '>'; all other characters are kept. */
  function StripTags(s: string): string
    decreases |s|
  {
    if s == [] then []
    else
      var n := TagLength(s);
      var step := if n > 0 then n else 1;
      (if n > 0 then [] else [s[0]]) + StripTags(s[step..])
  }

  /** Stripping adds no character, leaves no '<' that has a '>' after it,
      and leaves a string without '<' as it is. */
  lemma {:induction false} StripTagsSound(s: string)
    ensures multiset(StripTags(s)) <= multiset(s)
    ensures NoTags(StripTags(s))
    ensures '<' !in s ==> StripTags(s) == s
    decreases |s|
  {
    if s != [] {
      var n := TagLength(s);
      if n > 0 {
        StripTagsSound(s[n..]);
        assert s == s[..n] + s[n..];
      } else {
        StripTagsSound(s[1..]);
        KeepFirst(s, StripTags(s[1..]));
        assert StripTags(s) == [s[0]] + StripTags(s[1..]);
      }
    }
  }

  /** `p` is one `<...>` run: '<', then no '>', then '>'. */
  predicate IsTag(p: string) {
    |p| >= 2 && p[0] == '<' && p[|p| - 1] == '>' &&
    forall k :: 1 <= k < |p| - 1 ==> p[k] != '>'
  }

  /** A leading tag is removed and stripping goes on behind it. */
  lemma LeadingTagStrips(p: string, t: string)
    requires IsTag(p)
    ensures StripTags(p + t) == StripTags(t)
  {
    var s := p + t;
    assert s[1..][|p| - 2] == '>';
    assert TagLength(s) == |p|;
    assert s[|p|..] == t;
  }

  /** Text before the first '<' is kept as it is. */
  lemma {:induction false} PlainPrefixKept(x: string, t: string)
    requires '<' !in x
    ensures StripTags(x + t) == x + StripTags(t)
    decreases |x|
  {
    if x == [] {
      assert x + t == t;
    } else {
      var s := x + t;
      assert s[0] == x[0];
      assert s[1..] == x[1..] + t;
      assert '<' !in x[1..];
      assert TagLength(s) == 0;
      calc {
        StripTags(s);
        [s[0]] + StripTags(s[1..]);
        { PlainPrefixKept(x[1..], t); }
        [x[0]] + (x[1..] + StripTags(t));
        { assert x == [x[0]] + x[1..]; }
        x + StripTags(t);
      }
    }
  }

  /** Without any '>' nothing is a tag, so the string is kept whole (an
      unclosed '<' included). */
  lemma {:induction false} NoCloseKept(s: string)
    requires '>' !in s
    ensures StripTags(s) == s
    decreases |s|
  {
    if s != [] {
      assert '>' !in s[1..] by {
        assert forall k :: 0 <= k < |s[1..]| ==> s[1..][k] == s[k + 1];
      }
      assert TagLength(s) == 0;
      NoCloseKept(s[1..]);
      assert s == [s[0]] + s[1..];
    }
  }

  /** The step of `StripTags` that keeps `s[0]`. */
  lemma KeepFirst(s: string, rest: string)
    requires s != [] && TagLength(s) == 0
    requires multiset(rest) <= multiset(s[1..]) && NoTags(rest)
    requires '<' !in s[1..] ==> rest == s[1..]
    ensures multiset([s[0]] + rest) <= multiset(s)
    ensures NoTags([s[0]] + rest)
    ensures '<' !in s ==> [s[0]] + rest == s
  {
    assert s == [s[0]] + s[1..];
    var r := [s[0]] + rest;
    if s[0] == '<' {
      forall j | 0 < j < |r|
        ensures r[j] != '>'
      {
        assert r[j] == rest[j - 1];
        assert rest[j - 1] in multiset(rest);
        assert rest[j - 1] in s[1..];
      }
    }
    forall i, j | 0 <= i < j < |r| && r[i] == '<'
      ensures r[j] != '>'
    {
      if i > 0 {
        assert r[i] == rest[i - 1] && r[j] == rest[j - 1];
      }
    }
  }

  /** Every character of a blank string is whitespace, so anything built
      from a part of its characters is blank too. */
  lemma BlankShrinks(s: string, r: string)
    requires Blank(s) && multiset(r) <= multiset(s)
    ensures Blank(r)
  {
    forall i | 0 <= i < |r|
      ensures IsSpace(r[i])
    {
      assert r[i] in multiset(r);
      assert r[i] in multiset(s);
      var k :| 0 <= k < |s| && s[k] == r[i];
    }
  }
}

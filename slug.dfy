/** `slugify` of `lib/utils.ts`: lower-case the string, delete every character
    outside `[\w\s-]`, turn each run of `[\s_-]` into one hyphen, and trim
    hyphens from both ends. */
module Slug {
  import opened RegexClasses
  import opened SeqUtil

  /** `toLowerCase` on one character; only the ASCII letters are mapped. */
  function LowerChar(c: char): char
  {
    if IsUpperLetter(c) then (c as int + 32) as char else c
  }

  function ToLowerCase(s: string): (r: string)
    ensures |r| == |s|
    ensures forall i :: 0 <= i < |s| ==> !IsUpperLetter(r[i])
    ensures forall i :: 0 <= i < |s| && IsUpperLetter(s[i]) ==> r[i] as int == s[i] as int + 32
    ensures forall i :: 0 <= i < |s| && !IsUpperLetter(s[i]) ==> r[i] == s[i]
  {
    seq(|s|, i requires 0 <= i < |s| => LowerChar(s[i]))
  }

  /** The characters `[\w\s-]` that `.replace(/[^\w\s-]/g, "")` leaves. */
  predicate IsKept(c: char)
  {
    IsWordChar(c) || IsWhitespace(c) || c == '-'
  }

  /** `[\s_-]`: the characters that `.replace(/[\s_-]+/g, "-")` merges. */
  predicate IsSeparator(c: char)
  {
    IsWhitespace(c) || c == '_' || c == '-'
  }

  predicate IsAlnum(c: char)
  {
    IsLowerLetter(c) || IsDigit(c)
  }

  /** `.replace(/[^\w\s-]/g, "")`. */
  function StripSymbols(s: string): string
  {
    Keep(s, IsKept)
  }

  /** Stripping deletes exactly the characters outside `[\w\s-]`: every other
      one is kept, as often as it occurs and in order. */
  lemma StripSymbolsIsFilter(s: string)
    ensures forall i :: 0 <= i < |StripSymbols(s)| ==> IsKept(StripSymbols(s)[i])
    ensures IsSubsequence(StripSymbols(s), s)
    ensures forall c :: multiset(StripSymbols(s))[c] == if IsKept(c) then multiset(s)[c] else 0
  {
    KeepIsFilter(s, IsKept);
  }

  /** Each maximal run of separators becomes one `-`, emitted at the run's
      last character; every other character is copied. */
  function CollapseSeparators(s: string): string
  {
    if s == [] then []
    else
      var rest := CollapseSeparators(s[1..]);
      if IsSeparator(s[0]) then
        (if |s| > 1 && IsSeparator(s[1]) then [] else "-") + rest
      else [s[0]] + rest
  }

  /** The shape of a collapsed string: hyphens and the input's other
      characters, never two hyphens in a row. */
  lemma {:induction false} CollapseShape(s: string)
    ensures forall i :: 0 <= i < |CollapseSeparators(s)| ==>
      CollapseSeparators(s)[i] == '-' || (!IsSeparator(CollapseSeparators(s)[i]) && CollapseSeparators(s)[i] in s)
    ensures forall i :: 0 <= i < |CollapseSeparators(s)| - 1 ==>
      !(CollapseSeparators(s)[i] == '-' && CollapseSeparators(s)[i + 1] == '-')
  {
    if s != [] {
      CollapseShape(s[1..]);
      CollapseHeadHyphen(s[1..]);
      var rest := CollapseSeparators(s[1..]);
      var r := CollapseSeparators(s);
      var head := if IsSeparator(s[0]) then (if |s| > 1 && IsSeparator(s[1]) then [] else "-") else [s[0]];
      assert r == head + rest;
      forall i | 0 <= i < |r|
        ensures r[i] == '-' || (!IsSeparator(r[i]) && r[i] in s)
      {
        if i >= |head| && rest[i - |head|] != '-' {
          assert r[i] == rest[i - |head|];
          assert rest[i - |head|] in s[1..];
          assert s[1..] <= s[1..] && forall c :: c in s[1..] ==> c in s;
        }
      }
      if head == "-" {
        assert rest == [] || rest[0] != '-';
      }
    }
  }

  /** A collapsed string starts with a hyphen exactly when the input starts
      with a separator. */
  lemma {:induction false} CollapseHeadHyphen(s: string)
    ensures s != [] && IsSeparator(s[0]) ==> CollapseSeparators(s) != [] && CollapseSeparators(s)[0] == '-'
    ensures s != [] && !IsSeparator(s[0]) ==> CollapseSeparators(s) != [] && CollapseSeparators(s)[0] == s[0]
    ensures s == [] ==> CollapseSeparators(s) == []
  {
    if s != [] && IsSeparator(s[0]) && |s| > 1 && IsSeparator(s[1]) {
      CollapseHeadHyphen(s[1..]);
    }
  }

  function DropLeadingHyphens(s: string): (r: string)
    ensures r == [] || r[0] != '-'
    ensures |r| <= |s| && r == s[|s| - |r|..]
    ensures forall i :: 0 <= i < |s| - |r| ==> s[i] == '-'
  {
    if s != [] && s[0] == '-' then DropLeadingHyphens(s[1..]) else s
  }

  function DropTrailingHyphens(s: string): (r: string)
    ensures r == [] || r[|r| - 1] != '-'
    ensures |r| <= |s| && r == s[..|r|]
    ensures forall i :: |r| <= i < |s| ==> s[i] == '-'
  {
    if s != [] && s[|s| - 1] == '-' then DropTrailingHyphens(s[..|s| - 1]) else s
  }

  /** The number of hyphens `s` starts with: what dropping them removes. */
  function LeadingHyphens(s: string): (n: nat)
    ensures n <= |s|
  {
    |s| - |DropLeadingHyphens(s)|
  }

  /** `.replace(/^-+|-+$/g, "")`. */
  function TrimHyphens(s: string): string
  {
    DropTrailingHyphens(DropLeadingHyphens(s))
  }

  /** Trimming removes the hyphens at both ends and nothing else: the result
      is the slice of `s` after its leading hyphens, followed in `s` only by
      hyphens, and it neither starts nor ends with one. */
  lemma TrimHyphensTrimsOnlyEnds(s: string)
    ensures var r := TrimHyphens(s);
      && (r == [] || (r[0] != '-' && r[|r| - 1] != '-'))
      && LeadingHyphens(s) + |r| <= |s|
      && r == s[LeadingHyphens(s)..LeadingHyphens(s) + |r|]
      && (forall i :: 0 <= i < LeadingHyphens(s) ==> s[i] == '-')
      && (forall i :: LeadingHyphens(s) + |r| <= i < |s| ==> s[i] == '-')
  {
    TrimmedSlice(s, DropLeadingHyphens(s), TrimHyphens(s), LeadingHyphens(s));
  }

  /** The two drops composed, over plain values: `t` is `s` after `lo`
      leading hyphens and `r` is `t` before its trailing hyphens. */
  lemma TrimmedSlice(s: string, t: string, r: string, lo: nat)
    requires lo <= |s| && t == s[lo..] && forall i :: 0 <= i < lo ==> s[i] == '-'
    requires |r| <= |t| && r == t[..|r|] && forall i :: |r| <= i < |t| ==> t[i] == '-'
    requires t == [] || t[0] != '-'
    requires r == [] || r[|r| - 1] != '-'
    ensures r == [] || (r[0] != '-' && r[|r| - 1] != '-')
    ensures lo + |r| <= |s| && r == s[lo..lo + |r|]
    ensures forall i :: lo + |r| <= i < |s| ==> s[i] == '-'
  {
    if r != [] {
      assert r[0] == t[0];
    }
    forall i | lo + |r| <= i < |s|
      ensures s[i] == '-'
    {
      assert s[i] == t[i - lo];
    }
  }

  /** The shape of every slug: lower-case ASCII letters, digits and single
      hyphens, with neither a leading nor a trailing hyphen. */
  ghost predicate IsSlug(t: string)
  {
    SingleHyphens(t) && (t != [] ==> t[0] != '-' && t[|t| - 1] != '-')
  }

  function Slugify(s: string): (r: string)
    ensures IsSlug(r)
  {
    SlugShape(s);
    TrimHyphens(CollapseSeparators(StripSymbols(ToLowerCase(s))))
  }

  lemma SlugShape(s: string)
    ensures IsSlug(TrimHyphens(CollapseSeparators(StripSymbols(ToLowerCase(s)))))
  {
    var lowered := ToLowerCase(s);
    var stripped := StripSymbols(lowered);
    var collapsed := CollapseSeparators(stripped);
    KeepMembers(lowered, IsKept);
    CollapseShape(stripped);
    assert forall c :: c in stripped ==> IsKept(c) && !IsUpperLetter(c);
    assert forall i :: 0 <= i < |collapsed| ==> IsAlnum(collapsed[i]) || collapsed[i] == '-';
    TrimKeepsShape(collapsed);
  }

  /** Letters, digits and hyphens, never two hyphens in a row. */
  ghost predicate SingleHyphens(s: string)
  {
    && (forall i :: 0 <= i < |s| ==> IsAlnum(s[i]) || s[i] == '-')
    && (forall i :: 0 <= i < |s| - 1 ==> !(s[i] == '-' && s[i + 1] == '-'))
  }

  lemma {:induction false} DropLeadingKeepsShape(s: string)
    requires SingleHyphens(s)
    ensures SingleHyphens(DropLeadingHyphens(s))
  {
    if s != [] && s[0] == '-' {
      assert forall i :: 0 <= i < |s| - 1 ==> s[1..][i] == s[i + 1];
      DropLeadingKeepsShape(s[1..]);
    }
  }

  lemma {:induction false} DropTrailingKeepsShape(s: string)
    requires SingleHyphens(s)
    ensures SingleHyphens(DropTrailingHyphens(s))
  {
    if s != [] && s[|s| - 1] == '-' {
      DropTrailingKeepsShape(s[..|s| - 1]);
    }
  }

  /** Trimming a string of letters, digits and single hyphens gives a slug. */
  lemma TrimKeepsShape(s: string)
    requires SingleHyphens(s)
    ensures IsSlug(TrimHyphens(s))
  {
    DropLeadingKeepsShape(s);
    DropTrailingKeepsShape(DropLeadingHyphens(s));
  }

  /** The letters and digits of a string, in order. */
  function Alnums(s: string): string
  {
    Keep(s, IsAlnum)
  }

  lemma {:induction false} StripKeepsAlnums(s: string)
    ensures Alnums(StripSymbols(s)) == Alnums(s)
  {
    if s != [] {
      StripKeepsAlnums(s[1..]);
      assert s == [s[0]] + s[1..];
      KeepAppend([s[0]], s[1..], IsKept);
      KeepAppend(Keep([s[0]], IsKept), Keep(s[1..], IsKept), IsAlnum);
      KeepAppend([s[0]], s[1..], IsAlnum);
    }
  }

  lemma {:induction false} CollapseKeepsAlnums(s: string)
    ensures Alnums(CollapseSeparators(s)) == Alnums(s)
  {
    if s != [] {
      CollapseKeepsAlnums(s[1..]);
      var head := if IsSeparator(s[0]) then (if |s| > 1 && IsSeparator(s[1]) then [] else "-") else [s[0]];
      assert CollapseSeparators(s) == head + CollapseSeparators(s[1..]);
      KeepAppend(head, CollapseSeparators(s[1..]), IsAlnum);
      assert s == [s[0]] + s[1..];
      KeepCons(s[0], s[1..], IsAlnum);
    }
  }

  lemma {:induction false} DropLeadingKeepsAlnums(s: string)
    ensures Alnums(DropLeadingHyphens(s)) == Alnums(s)
  {
    if s != [] && s[0] == '-' {
      DropLeadingKeepsAlnums(s[1..]);
      assert DropLeadingHyphens(s) == DropLeadingHyphens(s[1..]);
      assert Alnums(s) == Keep(s[1..], IsAlnum);
    }
  }

  lemma {:induction false} DropTrailingKeepsAlnums(s: string)
    ensures Alnums(DropTrailingHyphens(s)) == Alnums(s)
  {
    if s != [] && s[|s| - 1] == '-' {
      DropTrailingKeepsAlnums(s[..|s| - 1]);
      assert s == s[..|s| - 1] + [s[|s| - 1]];
      KeepAppend(s[..|s| - 1], [s[|s| - 1]], IsAlnum);
    }
  }

  /** The letters and digits of the lower-cased input survive, in order, and
      nothing else but hyphens is added. */
  lemma SlugifyKeepsAlnums(s: string)
    ensures Alnums(Slugify(s)) == Alnums(ToLowerCase(s))
  {
    var lowered := ToLowerCase(s);
    var stripped := StripSymbols(lowered);
    var collapsed := CollapseSeparators(stripped);
    StripKeepsAlnums(lowered);
    CollapseKeepsAlnums(stripped);
    DropLeadingKeepsAlnums(collapsed);
    DropTrailingKeepsAlnums(DropLeadingHyphens(collapsed));
  }

  /** A string with no separator is not changed by collapsing. */
  lemma {:induction false} CollapseWithoutSeparators(s: string)
    requires forall i :: 0 <= i < |s| ==> !IsSeparator(s[i])
    ensures CollapseSeparators(s) == s
  {
    if s != [] {
      CollapseWithoutSeparators(s[1..]);
      assert s == [s[0]] + s[1..];
    }
  }

  /** A non-empty run of separators in front of a non-separator (or of the
      end of the string) becomes exactly one hyphen. */
  lemma {:induction false} CollapseRun(w: string, v: string)
    requires w != [] && forall i :: 0 <= i < |w| ==> IsSeparator(w[i])
    requires v == [] || !IsSeparator(v[0])
    ensures CollapseSeparators(w + v) == "-" + CollapseSeparators(v)
  {
    var s := w + v;
    assert s[0] == w[0];
    assert s[1..] == w[1..] + v;
    if |w| > 1 {
      assert s[1] == w[1];
      CollapseRun(w[1..], v);
    } else {
      assert s[1..] == v;
      assert |s| > 1 ==> s[1] == v[0];
    }
  }

  /** Collapsing works piecewise across a cut just after a non-separator: no
      run of separators spans the cut. */
  lemma {:induction false} CollapseSplit(u: string, v: string)
    requires u == [] || !IsSeparator(u[|u| - 1])
    ensures CollapseSeparators(u + v) == CollapseSeparators(u) + CollapseSeparators(v)
  {
    if u == [] {
      assert u + v == v;
    } else {
      var s := u + v;
      assert s[0] == u[0];
      assert s[1..] == u[1..] + v;
      CollapseSplit(u[1..], v);
      if IsSeparator(u[0]) {
        assert |u| > 1 && s[1] == u[1];
      }
    }
  }

  /** A run of separators and a non-separator, written out: collapsing turns
      `u + w + v` into the collapsed pieces around a single hyphen. */
  lemma CollapseBetween(u: string, w: string, v: string)
    requires u == [] || !IsSeparator(u[|u| - 1])
    requires w != [] && forall i :: 0 <= i < |w| ==> IsSeparator(w[i])
    requires v == [] || !IsSeparator(v[0])
    ensures CollapseSeparators(u + w + v) == CollapseSeparators(u) + "-" + CollapseSeparators(v)
  {
    calc {
      CollapseSeparators(u + w + v);
      { AppendAssoc(u, w, v); }
      CollapseSeparators(u + (w + v));
      { CollapseSplit(u, w + v); }
      CollapseSeparators(u) + CollapseSeparators(w + v);
      { CollapseRun(w, v); }
      CollapseSeparators(u) + ("-" + CollapseSeparators(v));
      { AppendAssoc(CollapseSeparators(u), "-", CollapseSeparators(v)); }
      CollapseSeparators(u) + "-" + CollapseSeparators(v);
    }
  }

  /** A word: a non-empty string of ASCII letters and digits, in any case. */
  predicate IsWord(a: string)
  {
    a != [] && forall i :: 0 <= i < |a| ==> IsAlnum(LowerChar(a[i]))
  }

  lemma LowerJoin(a: string, w: string, b: string)
    requires forall i :: 0 <= i < |w| ==> IsSeparator(w[i])
    ensures ToLowerCase(a + w + b) == ToLowerCase(a) + w + ToLowerCase(b)
  {
    var s := a + w + b;
    var lowered := ToLowerCase(a) + w + ToLowerCase(b);
    forall i | 0 <= i < |s|
      ensures ToLowerCase(s)[i] == lowered[i]
    {
      if i < |a| {
        assert s[i] == a[i];
      } else if i < |a| + |w| {
        assert s[i] == w[i - |a|];
      } else {
        assert s[i] == b[i - |a| - |w|];
      }
    }
  }

  lemma LowerWordIsAlnum(a: string)
    requires IsWord(a)
    ensures forall i :: 0 <= i < |ToLowerCase(a)| ==> IsAlnum(ToLowerCase(a)[i])
  {
    assert forall i :: 0 <= i < |a| ==> ToLowerCase(a)[i] == LowerChar(a[i]);
  }

  lemma StripJoin(a: string, w: string, b: string)
    requires forall i :: 0 <= i < |a| ==> IsAlnum(a[i])
    requires forall i :: 0 <= i < |b| ==> IsAlnum(b[i])
    requires forall i :: 0 <= i < |w| ==> IsSeparator(w[i])
    ensures StripSymbols(a + w + b) == a + w + b
  {
    var s := a + w + b;
    forall i | 0 <= i < |s|
      ensures IsKept(s[i])
    {
      if i < |a| {
        assert s[i] == a[i];
      } else if i < |a| + |w| {
        assert s[i] == w[i - |a|];
      } else {
        assert s[i] == b[i - |a| - |w|];
      }
    }
    KeepAll(s, IsKept);
  }

  /** Trimming leaves a string alone when it neither starts nor ends with a
      hyphen. */
  lemma TrimUnhyphenated(s: string)
    requires s == [] || (s[0] != '-' && s[|s| - 1] != '-')
    ensures TrimHyphens(s) == s
  {
    assert DropLeadingHyphens(s) == s;
    assert DropTrailingHyphens(s) == s;
  }

  /** Two words joined by any run of whitespace, `_` and `-` slugify to the
      lower-cased words joined by one hyphen. */
  lemma SlugifyJoinsWords(a: string, w: string, b: string)
    requires IsWord(a) && IsWord(b)
    requires w != [] && forall i :: 0 <= i < |w| ==> IsSeparator(w[i])
    ensures Slugify(a + w + b) == ToLowerCase(a) + "-" + ToLowerCase(b)
  {
    var la, lb := ToLowerCase(a), ToLowerCase(b);
    var joined := la + "-" + lb;
    LowerJoin(a, w, b);
    LowerWordIsAlnum(a);
    LowerWordIsAlnum(b);
    StripJoin(la, w, lb);
    assert !IsSeparator(la[|la| - 1]) && !IsSeparator(lb[0]);
    CollapseBetween(la, w, lb);
    CollapseWithoutSeparators(la);
    CollapseWithoutSeparators(lb);
    assert CollapseSeparators(StripSymbols(ToLowerCase(a + w + b))) == joined;
    assert joined[0] == la[0] && joined[|joined| - 1] == lb[|lb| - 1];
    TrimUnhyphenated(joined);
  }

  lemma SlugifyHelloWorld(s: string)
    requires s == "Hello World"
    ensures Slugify(s) == "hello-world"
  {
    var a, w, b := "Hello", " ", "World";
    assert IsWord(a) && IsWord(b);
    assert s == a + w + b;
    SlugifyJoinsWords(a, w, b);
    LowerExample();
  }

  lemma LowerExample()
    ensures ToLowerCase("Hello") == "hello" && ToLowerCase("World") == "world"
  {
    var h, w := ToLowerCase("Hello"), ToLowerCase("World");
    assert h[0] == 'h' && h[1] == 'e' && h[2] == 'l' && h[3] == 'l' && h[4] == 'o';
    assert w[0] == 'w' && w[1] == 'o' && w[2] == 'r' && w[3] == 'l' && w[4] == 'd';
  }

  /** On a string that already has the slug shape, collapsing changes nothing:
      every separator run is a single `-`. */
  lemma {:induction false} CollapseFixesSlug(t: string)
    requires forall i :: 0 <= i < |t| ==> IsAlnum(t[i]) || t[i] == '-'
    requires forall i :: 0 <= i < |t| - 1 ==> !(t[i] == '-' && t[i + 1] == '-')
    ensures CollapseSeparators(t) == t
  {
    if t != [] {
      CollapseFixesSlug(t[1..]);
      assert t == [t[0]] + t[1..];
    }
  }

  /** A slug is its own slug. */
  lemma SlugifyFixesSlug(t: string)
    requires IsSlug(t)
    ensures Slugify(t) == t
  {
    var lowered := ToLowerCase(t);
    assert lowered == t;
    KeepAll(t, IsKept);
    CollapseFixesSlug(t);
  }

  /** `slugify` is idempotent. */
  lemma SlugifyIdempotent(s: string)
    ensures Slugify(Slugify(s)) == Slugify(s)
  {
    SlugifyFixesSlug(Slugify(s));
  }

  lemma SlugHasAlnum(t: string)
    requires IsSlug(t)
    ensures t != [] ==> Alnums(t) != []
  {
    if t != [] {
      KeepMembers(t, IsAlnum);
      assert t[0] in Alnums(t);
    }
  }

  /** A string without ASCII letters or digits slugifies to the empty string. */
  lemma SlugifyWithoutAlnumsIsEmpty(s: string)
    requires forall i :: 0 <= i < |s| ==> !IsAlnum(LowerChar(s[i]))
    ensures Slugify(s) == ""
  {
    KeepNone(ToLowerCase(s), IsAlnum);
    SlugifyKeepsAlnums(s);
    SlugHasAlnum(Slugify(s));
  }

  lemma SlugifyOfSymbolsOnly()
    ensures Slugify("  --__!!") == ""
  {
    SlugifyWithoutAlnumsIsEmpty("  --__!!");
  }
}

/**
 * services/export_csv_service.py `_slug`: the folder name a tournament is exported
 * under. Runs of characters outside `[A-Za-z0-9_-]` become one underscore, outer
 * underscores go, the rest is lower-cased, and an empty result becomes "tournoi".
 */
module Slug {
  import Text

  /** The characters the pattern `[^A-Za-z0-9_-]` leaves alone. */
  predicate Kept(c: char) {
    'A' <= c <= 'Z' || 'a' <= c <= 'z' || '0' <= c <= '9' || c == '_' || c == '-'
  }

  /** The characters a slug is made of. */
  predicate SlugChar(c: char) {
    'a' <= c <= 'z' || '0' <= c <= '9' || c == '_' || c == '-'
  }

  predicate IsAlnum(c: char) {
    'A' <= c <= 'Z' || 'a' <= c <= 'z' || '0' <= c <= '9'
  }

  /** What is left once the leading run of replaced characters is gone. */
  function DropRun(s: string): (r: string)
    ensures |r| <= |s| && r == s[|s| - |r|..]
    ensures r == [] || Kept(r[0])
    ensures forall i :: 0 <= i < |s| - |r| ==> !Kept(s[i])
    ensures |s| > 0 && !Kept(s[0]) ==> |r| < |s|
  {
    if |s| == 0 || Kept(s[0]) then s
    else
      var r := DropRun(s[1..]);
      assert s[1..][|s| - 1 - |r|..] == s[|s| - |r|..];
      assert forall i :: 1 <= i < |s| - |r| ==> s[i] == s[1..][i - 1];
      r
  }

  /** `re.sub(r'[^A-Za-z0-9_-]+', '_', s)` */
  function Collapse(s: string): (r: string)
    ensures forall i :: 0 <= i < |r| ==> Kept(r[i])
    ensures |r| <= |s|
    decreases |s|
  {
    if |s| == 0 then []
    else if Kept(s[0]) then [s[0]] + Collapse(s[1..])
    else "_" + Collapse(DropRun(s))
  }

  /** A non-empty string of slug characters with no underscore at either end. */
  predicate IsSlug(r: string) {
    |r| > 0 && (forall i :: 0 <= i < |r| ==> SlugChar(r[i])) && r[0] != '_' && r[|r| - 1] != '_'
  }

  /** The fallback name is a slug. */
  lemma FallbackIsSlug()
    ensures IsSlug("tournoi")
  {
    var f := "tournoi";
    assert f[0] == 't' && f[1] == 'o' && f[2] == 'u' && f[3] == 'r' && f[4] == 'n' && f[5] == 'o' && f[6] == 'i';
  }

  /** Lower-casing a kept character gives a slug character, and only `_` gives `_`. */
  lemma LowerKept(c: char)
    requires Kept(c)
    ensures SlugChar(Text.LowerChar(c)) && (Text.LowerChar(c) == '_' <==> c == '_')
  {
  }

  /** Lower-casing the kept characters left by trimming underscores. */
  function LowerTrimmed(c: string): (l: string)
    requires forall i :: 0 <= i < |c| ==> Kept(c[i])
    ensures |l| > 0 ==> IsSlug(l)
  {
    var t := Text.Trim(c, Text.IsUnderscore);
    var l := Text.Lower(t);
    assert forall i :: 0 <= i < |t| ==> Kept(t[i]) by {
      forall i | 0 <= i < |t|
        ensures Kept(t[i])
      {
        assert t[i] == c[Text.LeadLen(c, Text.IsUnderscore) + i];
      }
    }
    assert forall i :: 0 <= i < |l| ==> SlugChar(l[i]) by {
      forall i | 0 <= i < |l|
        ensures SlugChar(l[i])
      {
        LowerKept(t[i]);
      }
    }
    assert |l| > 0 ==> l[0] != '_' && l[|l| - 1] != '_' by {
      if |l| > 0 {
        LowerKept(t[0]);
        LowerKept(t[|t| - 1]);
      }
    }
    l
  }

  /** `_slug(name)` */
  function Slug(name: string): (r: string)
    ensures IsSlug(r)
  {
    var l := LowerTrimmed(Collapse(Text.Strip(name)));
    if l == [] then FallbackIsSlug(); "tournoi" else l
  }

  /** A run of replaced characters, whatever its length, becomes a single underscore. */
  lemma CollapseRun(run: string, rest: string)
    requires |run| > 0 && forall i :: 0 <= i < |run| ==> !Kept(run[i])
    requires rest == [] || Kept(rest[0])
    ensures Collapse(run + rest) == "_" + Collapse(rest)
  {
    DropRunOf(run, rest);
  }

  lemma {:induction false} DropRunOf(run: string, rest: string)
    requires forall i :: 0 <= i < |run| ==> !Kept(run[i])
    requires rest == [] || Kept(rest[0])
    ensures DropRun(run + rest) == rest
  {
    if |run| > 0 {
      assert (run + rest)[1..] == run[1..] + rest;
      DropRunOf(run[1..], rest);
    } else {
      assert run + rest == rest;
    }
  }

  /** A string made only of kept characters is left as it is. */
  lemma {:induction false} CollapseClean(s: string)
    requires forall i :: 0 <= i < |s| ==> Kept(s[i])
    ensures Collapse(s) == s
  {
    if |s| > 0 {
      CollapseClean(s[1..]);
      assert s == [s[0]] + s[1..];
    }
  }

  /** A slug is its own slug. */
  lemma SlugIdempotent(name: string)
    ensures Slug(Slug(name)) == Slug(name)
  {
    var s := Slug(name);
    assert !Text.IsSpace(s[0]) && !Text.IsSpace(s[|s| - 1]);
    Text.TrimKeepsClean(s, Text.IsSpace);
    CollapseClean(s);
    Text.TrimKeepsClean(s, Text.IsUnderscore);
    LowerSlug(s);
  }

  lemma LowerSlug(s: string)
    requires forall i :: 0 <= i < |s| ==> SlugChar(s[i])
    ensures Text.Lower(s) == s
  {
    forall i | 0 <= i < |s|
      ensures Text.Lower(s)[i] == s[i]
    {
      assert !('A' <= s[i] <= 'Z');
    }
  }

  // ---------- letters and digits survive ----------

  /** The letters and digits of `s`, lower-cased, in order. */
  function Alnums(s: string): (r: string)
    ensures |r| <= |s|
  {
    if |s| == 0 then []
    else (if IsAlnum(s[0]) then [Text.LowerChar(s[0])] else []) + Alnums(s[1..])
  }

  lemma {:induction false} AlnumsAppend(a: string, b: string)
    ensures Alnums(a + b) == Alnums(a) + Alnums(b)
  {
    if |a| > 0 {
      assert (a + b)[1..] == a[1..] + b;
      AlnumsAppend(a[1..], b);
    } else {
      assert a + b == b;
    }
  }

  lemma {:induction false} AlnumsNone(s: string)
    requires forall i :: 0 <= i < |s| ==> !IsAlnum(s[i])
    ensures Alnums(s) == []
  {
    if |s| > 0 {
      AlnumsNone(s[1..]);
    }
  }

  /** Trimming characters that are not letters or digits loses none of them. */
  lemma AlnumsTrim(s: string, drop: char -> bool)
    requires forall c :: drop(c) ==> !IsAlnum(c)
    ensures Alnums(Text.Trim(s, drop)) == Alnums(s)
  {
    var r := Text.Trim(s, drop);
    var a := Text.LeadLen(s, drop);
    var b := a + |r|;
    assert s == s[..a] + r + s[b..];
    AlnumsAppend(s[..a] + r, s[b..]);
    AlnumsAppend(s[..a], r);
    AlnumsNone(s[..a]);
    AlnumsNone(s[b..]);
  }

  lemma {:induction false} AlnumsCollapse(s: string)
    ensures Alnums(Collapse(s)) == Alnums(s)
    decreases |s|
  {
    if |s| > 0 {
      if Kept(s[0]) {
        AlnumsCollapse(s[1..]);
        AlnumsAppend([s[0]], Collapse(s[1..]));
      } else {
        var rest := DropRun(s);
        var run := s[..|s| - |rest|];
        assert s == run + rest;
        AlnumsCollapse(rest);
        AlnumsAppend("_", Collapse(rest));
        AlnumsAppend(run, rest);
        AlnumsNone(run);
      }
    }
  }

  lemma {:induction false} AlnumsLower(s: string)
    ensures Alnums(Text.Lower(s)) == Alnums(s)
  {
    if |s| > 0 {
      assert Text.Lower(s)[1..] == Text.Lower(s[1..]);
      AlnumsLower(s[1..]);
    }
  }

  /** Every letter and digit of the name reaches the slug, lower-cased and in order. */
  lemma SlugKeepsAlnums(name: string)
    requires Alnums(name) != []
    ensures Alnums(Slug(name)) == Alnums(name)
  {
    var c := Collapse(Text.Strip(name));
    var t := Text.Trim(c, Text.IsUnderscore);
    assert LowerTrimmed(c) == Text.Lower(t);
    AlnumsTrim(name, Text.IsSpace);
    AlnumsCollapse(Text.Strip(name));
    AlnumsTrim(c, Text.IsUnderscore);
    AlnumsLower(t);
  }
}

/**
 * The sequential helpers of the toolbox's `Misc` object: path normalisation
 * (`removeDuplicateSlashes`), the zero-guarded percentage (`getPercentage`), the unit choice of
 * `getHumanReadableStorageSpace`, and the early-exit line loop `iterateBufferedReader`.
 */
module Misc {
  import opened Wrappers
  import opened KotlinStd

  // ===========================================================================
  // removeDuplicateSlashes
  // ===========================================================================

  /** `s` with its leading run of '/' (possibly empty) removed. */
  function DropSlashRun(s: string): (r: string)
    ensures |r| <= |s|
    ensures r == [] || r[0] != '/'
    ensures s != [] && s[0] == '/' ==> |r| < |s|
  {
    if s != [] && s[0] == '/' then DropSlashRun(s[1..]) else s
  }

  /** What is dropped is a run of '/', and what is left is the rest of `s`. */
  lemma {:induction false} DropSlashRunIsSuffix(s: string)
    ensures DropSlashRun(s) == s[|s| - |DropSlashRun(s)|..]
    ensures forall i :: 0 <= i < |s| - |DropSlashRun(s)| ==> s[i] == '/'
  {
    if s != [] && s[0] == '/' {
      DropSlashRunIsSuffix(s[1..]);
      assert s[1..][|s| - 1 - |DropSlashRun(s)|..] == s[|s| - |DropSlashRun(s)|..];
    }
  }

  /**
   * The intended meaning of slash removal: every maximal run of '/' in `s` is replaced by a
   * single '/', and every other character is kept in order.
   */
  function CollapseSlashes(s: string): (r: string)
    decreases |s|
  {
    if s == [] then []
    else if s[0] == '/' then "/" + CollapseSlashes(DropSlashRun(s))
    else [s[0]] + CollapseSlashes(s[1..])
  }

  /** No two adjacent characters of `s` are both '/'. */
  predicate NoDoubleSlash(s: string)
  {
    forall i :: 0 <= i < |s| - 1 ==> s[i] != '/' || s[i + 1] != '/'
  }

  /** The characters of `s` other than '/', in order. */
  function WithoutSlashes(s: string): (r: string)
    ensures forall i :: 0 <= i < |r| ==> r[i] != '/'
  {
    if s == [] then [] else (if s[0] == '/' then [] else [s[0]]) + WithoutSlashes(s[1..])
  }

  /** The local `qualifyForRemoval` of the source: both characters are '/'. */
  predicate QualifiesForRemoval(startPtr: char, endPtr: char)
  {
    startPtr == '/' && endPtr == '/'
  }

  /**
   * What `removeDuplicateSlashes(path)` returns. The length test counts UTF-16 units, as Kotlin's
   * `String.length` does.
   */
  function DeduplicatedPath(path: string): (r: string)
  {
    var trimmed := Trim(path);
    if Utf16Length(trimmed) < 2 then path else CollapseSlashes(trimmed)
  }

  /**
   * The one-behind scan of the source: `path` is trimmed, a sentinel space is appended, and
   * `path[i-1]` is appended to the buffer for every `i` from 1 unless `path[i]` and `path[i-1]`
   * are both '/'.
   */
  method RemoveDuplicateSlashes(path: string) returns (r: string)
    ensures r == DeduplicatedPath(path)
    ensures Utf16Length(Trim(path)) < 2 ==> r == path
    ensures Utf16Length(Trim(path)) >= 2 ==> r == CollapseSlashes(Trim(path)) && NoDoubleSlash(r)
  {
    var trimmed := Trim(path);
    if Utf16Length(trimmed) < 2 {
      return path;
    }
    // a space at the end handles a duplicate at the very end
    var p := trimmed + " ";
    var lastConsideredPtr := p[0];
    var ptr := p[1];
    var modifiedString := "";
    for i := 1 to |p|
      invariant modifiedString + [p[i - 1]] == CollapseSlashes(p[..i])
    {
      ptr := p[i];
      var behindPtr := p[i - 1];
      ghost var before := modifiedString;
      assert p[..i + 1] == p[..i] + [ptr];
      assert p[..i][i - 1] == behindPtr;
      CollapseSnoc(p[..i], ptr);
      if !QualifiesForRemoval(ptr, behindPtr) {
        lastConsideredPtr := behindPtr;
        modifiedString := modifiedString + [lastConsideredPtr];
        assert CollapseSlashes(p[..i + 1]) == before + [behindPtr] + [ptr];
      } else {
        assert CollapseSlashes(p[..i + 1]) == before + [ptr];
      }
    }
    assert p[..|p|] == trimmed + [' '];
    CollapseSnoc(trimmed, ' ');
    assert modifiedString + [' '] == CollapseSlashes(trimmed) + [' '];
    assert modifiedString == (modifiedString + [' '])[..|modifiedString|];
    CollapseNoDoubleSlash(trimmed);
    r := modifiedString;
  }

  // ---------------------------------------------------------------------------
  // Lemmas about CollapseSlashes
  // ---------------------------------------------------------------------------

  lemma {:induction false} DropSlashRunSnoc(s: string, c: char)
    ensures DropSlashRun(s) != [] ==> DropSlashRun(s + [c]) == DropSlashRun(s) + [c]
    ensures DropSlashRun(s) == [] ==> DropSlashRun(s + [c]) == DropSlashRun([c])
  {
    if s == [] {
      assert s + [c] == [c];
    } else if s[0] == '/' {
      assert (s + [c])[1..] == s[1..] + [c];
      DropSlashRunSnoc(s[1..], c);
    } else {
      assert (s + [c])[0] == s[0];
    }
  }

  /**
   * Appending one character to the input appends it to the output, except that a '/' right
   * after a '/' extends a run and adds nothing.
   */
  lemma {:induction false} CollapseSnoc(s: string, c: char)
    ensures CollapseSlashes(s + [c]) ==
      if c == '/' && s != [] && s[|s| - 1] == '/' then CollapseSlashes(s) else CollapseSlashes(s) + [c]
    decreases |s|
  {
    var sc := s + [c];
    if s == [] {
      assert sc == [c];
      assert sc[1..] == [];
    } else if s[0] != '/' {
      var t := s[1..];
      assert s == [s[0]] + t && sc == [s[0]] + (t + [c]);
      CollapseSnoc(t, c);
      CollapseCons(s[0], t + [c]);
      CollapseCons(s[0], t);
      AppendAssoc([s[0]], CollapseSlashes(t), [c]);
      assert |s| > 1 ==> t[|t| - 1] == s[|s| - 1];
    } else {
      assert sc[0] == '/';
      DropSlashRunSnoc(s, c);
      var d := DropSlashRun(s);
      CollapseAtSlash(s);
      CollapseAtSlash(sc);
      DropSlashRunLast(s);
      if d != [] {
        CollapseSnoc(d, c);
        AppendAssoc("/", CollapseSlashes(d), [c]);
      } else {
        assert [c][1..] == [];
      }
    }
  }

  /**
   * The scan adds nothing for a character exactly when it and the character before it qualify for
   * removal; otherwise the collapsed prefix grows by one character.
   */
  lemma QualifiesForRemovalSkips(s: string, c: char)
    requires s != []
    ensures CollapseSlashes(s + [c]) == CollapseSlashes(s) <==> QualifiesForRemoval(c, s[|s| - 1])
    ensures !QualifiesForRemoval(c, s[|s| - 1]) ==> CollapseSlashes(s + [c]) == CollapseSlashes(s) + [c]
  {
    CollapseSnoc(s, c);
    if !QualifiesForRemoval(c, s[|s| - 1]) {
      assert |CollapseSlashes(s + [c])| == |CollapseSlashes(s)| + 1;
    }
  }

  /** The last character survives collapsing. */
  lemma {:induction false} CollapseLast(s: string)
    requires s != []
    ensures var r := CollapseSlashes(s); r != [] && r[|r| - 1] == s[|s| - 1]
    decreases |s|
  {
    if s[0] != '/' {
      if |s| > 1 { CollapseLast(s[1..]); }
    } else {
      var d := DropSlashRun(s);
      DropSlashRunIsSuffix(s);
      if d != [] { CollapseLast(d); }
    }
  }

  /** The result of collapsing never holds "//". */
  lemma {:induction false} CollapseNoDoubleSlash(s: string)
    ensures NoDoubleSlash(CollapseSlashes(s))
    decreases |s|
  {
    if s == [] {
    } else {
      var rest := if s[0] == '/' then DropSlashRun(s) else s[1..];
      CollapseNoDoubleSlash(rest);
      var t := CollapseSlashes(rest);
      assert CollapseSlashes(s) == [s[0]] + t;
      assert s[0] == '/' ==> t == [] || t[0] != '/';
    }
  }

  lemma {:induction false} WithoutSlashesOfRun(s: string)
    ensures WithoutSlashes(DropSlashRun(s)) == WithoutSlashes(s)
  {
    if s != [] && s[0] == '/' { WithoutSlashesOfRun(s[1..]); }
  }

  /** Collapsing keeps every character other than '/', in order. */
  lemma {:induction false} CollapseKeepsOtherChars(s: string)
    ensures WithoutSlashes(CollapseSlashes(s)) == WithoutSlashes(s)
    decreases |s|
  {
    if s == [] {
    } else if s[0] == '/' {
      var d := DropSlashRun(s);
      CollapseKeepsOtherChars(d);
      WithoutSlashesOfRun(s);
      assert ("/" + CollapseSlashes(d))[1..] == CollapseSlashes(d);
    } else {
      CollapseKeepsOtherChars(s[1..]);
      assert ([s[0]] + CollapseSlashes(s[1..]))[1..] == CollapseSlashes(s[1..]);
    }
  }

  /** A string is left unchanged by collapsing exactly when it has no "//". */
  lemma {:induction false} CollapseFixpoint(s: string)
    ensures CollapseSlashes(s) == s <==> NoDoubleSlash(s)
    decreases |s|
  {
    if NoDoubleSlash(s) {
      if s != [] {
        assert NoDoubleSlash(s[1..]) by {
          forall i | 0 <= i < |s[1..]| - 1 ensures s[1..][i] != '/' || s[1..][i + 1] != '/' {
            assert s[1..][i] == s[i + 1] && s[1..][i + 1] == s[i + 2];
          }
        }
        CollapseFixpoint(s[1..]);
        if s[0] == '/' {
          assert |s| == 1 || s[1] != '/';
          assert DropSlashRun(s) == s[1..];
        }
      }
    } else {
      CollapseNoDoubleSlash(s);
    }
  }

  // ---------------------------------------------------------------------------
  // Properties of removeDuplicateSlashes
  // ---------------------------------------------------------------------------

  /** Normalising an already normalised path changes nothing. */
  lemma RemoveDuplicateSlashesIdempotent(path: string)
    ensures DeduplicatedPath(DeduplicatedPath(path)) == DeduplicatedPath(path)
  {
    var t := Trim(path);
    if Utf16Length(t) >= 2 {
      var r := CollapseSlashes(t);
      CollapseLast(t);
      TrimOfTrimmed(r);
      CollapseNoDoubleSlash(t);
      CollapseFixpoint(r);
    }
  }

  /**
   * For a path whose trim has at least two UTF-16 units the result has no "//", keeps every other
   * character of the trimmed path in order, starts and ends like the trimmed path, and is its
   * own trim (the sentinel space never reaches the output).
   */
  lemma RemoveDuplicateSlashesResult(path: string)
    requires Utf16Length(Trim(path)) >= 2
    ensures var r := DeduplicatedPath(path); var t := Trim(path);
      NoDoubleSlash(r) && WithoutSlashes(r) == WithoutSlashes(t)
      && r != [] && r[0] == t[0] && r[|r| - 1] == t[|t| - 1] && Trim(r) == r
  {
    var t := Trim(path);
    CollapseNoDoubleSlash(t);
    CollapseKeepsOtherChars(t);
    CollapseLast(t);
    TrimOfTrimmed(CollapseSlashes(t));
  }

  lemma {:induction false} DropSlashRunAppend(a: string, b: string)
    ensures DropSlashRun(a) != [] ==> DropSlashRun(a + b) == DropSlashRun(a) + b
    ensures DropSlashRun(a) == [] ==> DropSlashRun(a + b) == DropSlashRun(b)
  {
    if a == [] {
      assert a + b == b;
    } else if a[0] == '/' {
      assert (a + b)[1..] == a[1..] + b;
      DropSlashRunAppend(a[1..], b);
    } else {
      assert (a + b)[0] == a[0];
    }
  }

  /** Collapsing works piece by piece when the cut does not fall inside a run of '/'. */
  lemma {:induction false} CollapseAppend(a: string, b: string)
    requires a == [] || b == [] || a[|a| - 1] != '/' || b[0] != '/'
    ensures CollapseSlashes(a + b) == CollapseSlashes(a) + CollapseSlashes(b)
    decreases |a|, 2
  {
    if a == [] {
      assert a + b == b;
    } else if a[0] != '/' {
      CollapseAppendWord(a, b);
    } else {
      CollapseAppendRun(a, b);
    }
  }

  lemma AppendAssoc(x: string, y: string, z: string)
    ensures x + (y + z) == (x + y) + z
  {
  }

  /** A character other than '/' in front of `u` is kept in front of its collapse. */
  lemma CollapseCons(c: char, u: string)
    requires c != '/'
    ensures CollapseSlashes([c] + u) == [c] + CollapseSlashes(u)
  {
    assert ([c] + u)[0] == c && ([c] + u)[1..] == u;
  }

  /** `CollapseAppend` when `a` starts with a character other than '/'. */
  lemma {:induction false} CollapseAppendWord(a: string, b: string)
    requires a != [] && a[0] != '/'
    requires b == [] || a[|a| - 1] != '/' || b[0] != '/'
    ensures CollapseSlashes(a + b) == CollapseSlashes(a) + CollapseSlashes(b)
    decreases |a|, 0
  {
    var c, t := [a[0]], a[1..];
    assert a == c + t && a + b == c + (t + b);
    if t != [] { assert t[|t| - 1] == a[|a| - 1]; }
    CollapseAppend(t, b);
    CollapseCons(a[0], t + b);
    CollapseCons(a[0], t);
    AppendAssoc(c, CollapseSlashes(t), CollapseSlashes(b));
  }

  /** A string that starts with '/' collapses to one '/' followed by the collapse of what follows its run. */
  lemma CollapseAtSlash(s: string)
    requires s != [] && s[0] == '/'
    ensures CollapseSlashes(s) == "/" + CollapseSlashes(DropSlashRun(s))
  {
  }

  /** `CollapseAppend` when `a` starts with '/'. */
  lemma {:induction false} CollapseAppendRun(a: string, b: string)
    requires a != [] && a[0] == '/'
    requires b == [] || a[|a| - 1] != '/' || b[0] != '/'
    ensures CollapseSlashes(a + b) == CollapseSlashes(a) + CollapseSlashes(b)
    decreases |a|, 1
  {
    DropSlashRunLast(a);
    if DropSlashRun(a) != [] {
      CollapseAppendAfterRun(a, b);
    } else {
      assert (a + b)[0] == '/';
      CollapseAtSlash(a + b);
      CollapseAtSlash(a);
      DropSlashRunAppend(a, b);
      CollapseAfterRun(b);
    }
  }

  /** `CollapseAppend` when `a` is a run of '/' followed by more. */
  lemma {:induction false} CollapseAppendAfterRun(a: string, b: string)
    requires a != [] && a[0] == '/'
    requires DropSlashRun(a) != []
    requires b == [] || DropSlashRun(a)[|DropSlashRun(a)| - 1] != '/' || b[0] != '/'
    ensures CollapseSlashes(a + b) == CollapseSlashes(a) + CollapseSlashes(b)
    decreases |a|, 0
  {
    var d := DropSlashRun(a);
    assert (a + b)[0] == '/';
    DropSlashRunAppend(a, b);
    CollapseAppend(d, b);
    CollapseAtSlash(a + b);
    CollapseAtSlash(a);
    AppendAssoc("/", CollapseSlashes(d), CollapseSlashes(b));
  }

  /** Dropping the leading run keeps the last character, unless the whole string is that run. */
  lemma {:induction false} DropSlashRunLast(s: string)
    requires s != []
    ensures DropSlashRun(s) == [] ==> s[|s| - 1] == '/'
    ensures DropSlashRun(s) != [] ==> DropSlashRun(s)[|DropSlashRun(s)| - 1] == s[|s| - 1]
  {
    if s[0] == '/' && |s| > 1 {
      DropSlashRunLast(s[1..]);
    }
  }

  /** After a run of '/' that ends a piece, the next piece starts with no '/' to drop. */
  lemma CollapseAfterRun(b: string)
    requires b == [] || b[0] != '/'
    ensures "/" + CollapseSlashes(DropSlashRun(b)) == "/" + CollapseSlashes([]) + CollapseSlashes(b)
  {
  }

  /**
   * Collapsing `s` cut at `k` (`k` outside any run of '/'), where the two sides are known to
   * collapse to `left` and `right`.
   */
  lemma CollapseAt(s: string, k: nat, left: string, right: string)
    requires 0 < k < |s| && (s[k - 1] != '/' || s[k] != '/')
    requires CollapseSlashes(s[..k]) == left && CollapseSlashes(s[k..]) == right
    ensures CollapseSlashes(s) == left + right
  {
    assert s == s[..k] + s[k..];
    CollapseAppend(s[..k], s[k..]);
  }

  /** A string without '/' is left as it is. */
  lemma {:induction false} CollapseWord(w: string)
    requires forall i :: 0 <= i < |w| ==> w[i] != '/'
    ensures CollapseSlashes(w) == w
  {
    if w != [] {
      CollapseWord(w[1..]);
    }
  }

  /** A non-empty run of '/' becomes a single '/'. */
  lemma {:induction false} CollapseRun(r: string)
    requires r != [] && forall i :: 0 <= i < |r| ==> r[i] == '/'
    ensures DropSlashRun(r) == [] && CollapseSlashes(r) == "/"
  {
    if |r| > 1 {
      CollapseRun(r[1..]);
    }
  }

  /** A non-empty piece of a path without '/'. */
  predicate IsWord(w: string)
  {
    w != [] && forall i :: 0 <= i < |w| ==> w[i] != '/'
  }

  /** `n` copies of '/'. */
  function Slashes(n: nat): (r: string)
  {
    if n == 0 then [] else "/" + Slashes(n - 1)
  }

  lemma {:induction false} SlashesRun(n: nat)
    ensures |Slashes(n)| == n && forall i :: 0 <= i < n ==> Slashes(n)[i] == '/'
  {
    if n > 0 {
      SlashesRun(n - 1);
    }
  }

  /**
   * A path written as a leading run of `lead` slashes followed by words, each followed by its own
   * run of slashes.
   */
  function Segments(lead: nat, ws: seq<(string, nat)>): (r: string)
    decreases |ws|
  {
    Slashes(lead) + (if ws == [] then [] else ws[0].0 + Segments(ws[0].1, ws[1..]))
  }

  /** Every run of the segments shortened to at most one slash. */
  function ShortRuns(ws: seq<(string, nat)>): (r: seq<(string, nat)>)
    ensures |r| == |ws|
    ensures forall i :: 0 <= i < |ws| ==> r[i] == (ws[i].0, if ws[i].1 == 0 then 0 else 1)
  {
    if ws == [] then [] else [(ws[0].0, if ws[0].1 == 0 then 0 else 1)] + ShortRuns(ws[1..])
  }

  lemma {:induction false} CollapseSegments(lead: nat, ws: seq<(string, nat)>)
    requires forall i :: 0 <= i < |ws| ==> IsWord(ws[i].0)
    ensures CollapseSlashes(Segments(lead, ws)) == Segments(if lead == 0 then 0 else 1, ShortRuns(ws))
    decreases |ws|
  {
    var short := if lead == 0 then 0 else 1;
    SlashesRun(lead);
    if ws == [] {
      assert Segments(lead, ws) == Slashes(lead);
      assert Segments(short, ShortRuns(ws)) == Slashes(short);
      if lead > 0 {
        CollapseRun(Slashes(lead));
      }
    } else {
      var w, n := ws[0].0, ws[0].1;
      var rest := Segments(n, ws[1..]);
      CollapseSegments(n, ws[1..]);
      var crest := Segments(if n == 0 then 0 else 1, ShortRuns(ws[1..]));
      assert ShortRuns(ws)[1..] == ShortRuns(ws[1..]);
      assert Segments(short, ShortRuns(ws)) == Slashes(short) + (w + crest);
      CollapseWord(w);
      var t := w + rest;
      if rest != [] {
        assert t[..|w|] == w && t[|w|..] == rest;
        CollapseAt(t, |w|, w, crest);
      } else {
        assert t == w;
      }
      if lead > 0 {
        CollapseRun(Slashes(lead));
        var u := Slashes(lead) + t;
        assert u[..lead] == Slashes(lead) && u[lead..] == t;
        CollapseAt(u, lead, "/", w + crest);
      } else {
        assert Slashes(lead) + t == t;
      }
    }
  }

  /** A word between two runs of '/' keeps the word and shortens each non-empty run to one '/'. */
  lemma CollapseRunWordRun(m: nat, w: string, n: nat)
    requires IsWord(w)
    ensures CollapseSlashes(Slashes(m) + (w + Slashes(n)))
      == Slashes(if m == 0 then 0 else 1) + (w + Slashes(if n == 0 then 0 else 1))
  {
    var ws := [(w, n)];
    CollapseSegments(m, ws);
    assert ws[1..] == [];
    assert Segments(n, []) == Slashes(n);
    assert ShortRuns(ws) == [(w, if n == 0 then 0 else 1)];
    assert Segments(if n == 0 then 0 else 1, []) == Slashes(if n == 0 then 0 else 1);
  }

  /** `CollapseAppend` for a path cut into four pieces, no cut falling inside a run of '/'. */
  lemma CollapseAppend4(a: string, b: string, c: string, d: string)
    requires a != [] && b != [] && c != [] && d != []
    requires a[|a| - 1] != '/' || b[0] != '/'
    requires b[|b| - 1] != '/' || c[0] != '/'
    requires c[|c| - 1] != '/' || d[0] != '/'
    ensures CollapseSlashes(a + (b + (c + d)))
      == CollapseSlashes(a) + (CollapseSlashes(b) + (CollapseSlashes(c) + CollapseSlashes(d)))
  {
    CollapseAppend(c, d);
    assert (c + d)[0] == c[0];
    CollapseAppend(b, c + d);
    assert (b + (c + d))[0] == b[0];
    CollapseAppend(a, b + (c + d));
  }

  // The two examples of the source's documentation comment. Each path (and each result) is
  // written as four pieces cut where no run of '/' is split, and every piece is collapsed on its own.

  lemma FirstExampleAsPieces(path: string)
    requires path == "//aaa////bbb/ccc//ddd/"
    ensures path == "//aaa" + ("////bbb/" + ("ccc//" + "ddd/"))
  {
  }

  lemma FirstResultAsPieces(r: string)
    requires r == "/aaa" + ("/bbb/" + ("ccc/" + "ddd/"))
    ensures r == "/aaa/bbb/ccc/ddd/"
  {
  }

  lemma CollapseTwoSlashesAaa()
    ensures CollapseSlashes("//aaa") == "/aaa"
  {
    CollapseRunWordRun(2, "aaa", 0);
    assert Slashes(2) + ("aaa" + Slashes(0)) == "//aaa";
    assert Slashes(1) + ("aaa" + Slashes(0)) == "/aaa";
  }

  lemma CollapseFourSlashesBbbSlash()
    ensures CollapseSlashes("////bbb/") == "/bbb/"
  {
    CollapseRunWordRun(4, "bbb", 1);
    assert Slashes(4) + ("bbb" + Slashes(1)) == "////bbb/";
    assert Slashes(1) + ("bbb" + Slashes(1)) == "/bbb/";
  }

  lemma CollapseCccTwoSlashes()
    ensures CollapseSlashes("ccc//") == "ccc/"
  {
    CollapseRunWordRun(0, "ccc", 2);
    assert Slashes(0) + ("ccc" + Slashes(2)) == "ccc//";
    assert Slashes(0) + ("ccc" + Slashes(1)) == "ccc/";
  }

  lemma CollapseDddSlash()
    ensures CollapseSlashes("ddd/") == "ddd/"
  {
    CollapseRunWordRun(0, "ddd", 1);
    assert Slashes(0) + ("ddd" + Slashes(1)) == "ddd/";
  }

  /** The first example of the source's documentation comment. */
  lemma RemoveDuplicateSlashesFirstExample(path: string)
    requires path == "//aaa////bbb/ccc//ddd/"
    ensures DeduplicatedPath(path) == "/aaa/bbb/ccc/ddd/"
  {
    FirstExampleAsPieces(path);
    TrimOfTrimmed(path);
    CollapseTwoSlashesAaa();
    CollapseFourSlashesBbbSlash();
    CollapseCccTwoSlashes();
    CollapseDddSlash();
    CollapseAppend4("//aaa", "////bbb/", "ccc//", "ddd/");
    FirstResultAsPieces(CollapseSlashes(path));
  }

  lemma SecondExampleAsPieces(path: string)
    requires path == "a/b/bbb//c///dd/dde///"
    ensures path == "a/b/" + ("bbb//c" + ("///dd/" + "dde///"))
  {
  }

  lemma SecondResultAsPieces(r: string)
    requires r == "a/b/" + ("bbb/c" + ("/dd/" + "dde/"))
    ensures r == "a/b/bbb/c/dd/dde/"
  {
  }

  lemma CollapseASlashBSlash()
    ensures CollapseSlashes("a/b/") == "a/b/"
  {
    CollapseRunWordRun(0, "a", 1);
    CollapseRunWordRun(0, "b", 1);
    assert Slashes(0) + ("a" + Slashes(1)) == "a/" && Slashes(0) + ("b" + Slashes(1)) == "b/";
    CollapseAppend("a/", "b/");
    assert "a/" + "b/" == "a/b/";
  }

  lemma CollapseBbbTwoSlashesC()
    ensures CollapseSlashes("bbb//c") == "bbb/c"
  {
    CollapseRunWordRun(0, "bbb", 2);
    assert Slashes(0) + ("bbb" + Slashes(2)) == "bbb//" && Slashes(0) + ("bbb" + Slashes(1)) == "bbb/";
    CollapseWord("c");
    CollapseAppend("bbb//", "c");
    assert "bbb//" + "c" == "bbb//c" && "bbb/" + "c" == "bbb/c";
  }

  lemma CollapseThreeSlashesDdSlash()
    ensures CollapseSlashes("///dd/") == "/dd/"
  {
    CollapseRunWordRun(3, "dd", 1);
    assert Slashes(3) + ("dd" + Slashes(1)) == "///dd/";
    assert Slashes(1) + ("dd" + Slashes(1)) == "/dd/";
  }

  lemma CollapseDdeThreeSlashes()
    ensures CollapseSlashes("dde///") == "dde/"
  {
    CollapseRunWordRun(0, "dde", 3);
    assert Slashes(0) + ("dde" + Slashes(3)) == "dde///";
    assert Slashes(0) + ("dde" + Slashes(1)) == "dde/";
  }

  /** The second example of the source's documentation comment. */
  lemma RemoveDuplicateSlashesSecondExample(path: string)
    requires path == "a/b/bbb//c///dd/dde///"
    ensures DeduplicatedPath(path) == "a/b/bbb/c/dd/dde/"
  {
    SecondExampleAsPieces(path);
    TrimOfTrimmed(path);
    CollapseASlashBSlash();
    CollapseBbbTwoSlashesC();
    CollapseThreeSlashesDdSlash();
    CollapseDdeThreeSlashes();
    CollapseAppend4("a/b/", "bbb//c", "///dd/", "dde///");
    SecondResultAsPieces(CollapseSlashes(path));
  }

  /**
   * The length test counts UTF-16 units: a single character outside the Basic Multilingual Plane
   * is two units long, so its trim goes through the scan and comes back without the spaces.
   */
  lemma RemoveDuplicateSlashesSurrogatePair(path: string)
    requires path == " \U{1F600} "
    ensures DeduplicatedPath(path) == "\U{1F600}"
  {
    var c := '\U{1F600}';
    assert IsWhitespace(' ') && !IsWhitespace(c);
    assert path[0] == ' ' && path[1..] == [c, ' '];
    assert TrimStart(path) == [c, ' '];
    assert [c, ' '][..1] == [c];
    assert TrimEnd([c, ' ']) == [c];
    assert Utf16Length([c]) == 2;
    assert CollapseSlashes([c]) == [c];
  }

  // ===========================================================================
  // getPercentage
  // ===========================================================================

  /**
   * `getPercentage` as written: `(count * 100) / total` in 32-bit `Int` arithmetic, so the product
   * wraps around and the division truncates toward zero; 0 when `total` is 0.
   */
  function GetPercentage(count: Int32, total: Int32): (r: Int32)
    ensures total == 0 ==> r == 0
  {
    if total != 0 then Wrap32(TruncDiv(Wrap32(count * 100), total)) else 0
  }

  /**
   * While `count * 100` fits in an `Int`, the result is that product divided by `total` and
   * rounded toward zero: the remainder is smaller than `total` and has the sign of `count`.
   */
  lemma GetPercentageTruncates(count: Int32, total: Int32)
    requires total != 0 && INT_MIN <= count * 100 <= INT_MAX
    ensures var r := GetPercentage(count, total);
      Abs(count * 100 - r * total) < Abs(total)
      && (count >= 0 ==> count * 100 - r * total >= 0)
      && (count <= 0 ==> count * 100 - r * total <= 0)
  {
    var q := TruncDiv(count * 100, total);
    assert -INT_MAX <= q <= INT_MAX;
    assert GetPercentage(count, total) == q;
  }

  /** The example of the source's documentation: 50 of 200 is 25 percent. */
  lemma GetPercentageExample()
    ensures GetPercentage(50, 200) == 25
  {
    assert TruncDiv(5000, 200) == 25;
  }

  /**
   * While `count * 100` fits in an `Int`, a count between 0 and a positive total gives the
   * percentage rounded down, between 0 and 100.
   */
  lemma GetPercentageInRange(count: Int32, total: Int32)
    requires 0 <= count <= total && 0 < total && count * 100 <= INT_MAX
    ensures GetPercentage(count, total) == count * 100 / total
    ensures 0 <= GetPercentage(count, total) <= 100
  {
    PercentBound(count, total);
  }

  lemma PercentBound(count: int, total: int)
    requires 0 <= count <= total && 0 < total
    ensures 0 <= count * 100 / total <= 100
  {
    var q := count * 100 / total;
    assert q * total <= count * 100 <= total * 100;
    assert (q - 100) * total <= 0;
  }

  /** Above 21474836 the product wraps around and the result is negative. */
  lemma GetPercentageOverflow()
    ensures GetPercentage(25_000_000, 50_000_000) == -35
  {
    assert Wrap32(2_500_000_000) == -1_794_967_296;
    assert TruncDiv(-1_794_967_296, 50_000_000) == -35;
  }

  /**
   * The evidently intended percentage: the product is formed in 64-bit `Long` arithmetic, where
   * `count * 100` of two `Int` values cannot overflow, and the quotient is narrowed back to `Int`.
   */
  function GetPercentageWide(count: Int32, total: Int32): (r: Int32)
    ensures total == 0 ==> r == 0
  {
    var product: Int64 := count * 100;
    if total != 0 then Wrap32(TruncDiv(product, total)) else 0
  }

  /** A count between 0 and a positive total always gives a percentage between 0 and 100. */
  lemma GetPercentageWideInRange(count: Int32, total: Int32)
    requires 0 <= count <= total && 0 < total
    ensures GetPercentageWide(count, total) == count * 100 / total
    ensures 0 <= GetPercentageWide(count, total) <= 100
  {
    PercentBound(count, total);
  }

  // ===========================================================================
  // getHumanReadableStorageSpace: the unit choice
  // ===========================================================================

  /** The units `getHumanReadableStorageSpace` advances through, smallest first. */
  const StorageUnits: seq<string> := ["B", "KB", "MB", "GB", "TB"]

  function Pow1024(k: nat): (r: nat)
    ensures r >= 1
  {
    if k == 0 then 1 else 1024 * Pow1024(k - 1)
  }

  lemma {:induction false} Pow1024Grows(i: nat, j: nat)
    requires i <= j
    ensures Pow1024(i) <= Pow1024(j)
    decreases j
  {
    if i < j {
      Pow1024Grows(i, j - 1);
    }
  }

  /** How many of the divide stages 1..`limit` fire for `x`: the largest such `j` with `x > 1024^j`, else 0. */
  function StagesFired(x: int, limit: nat): (k: nat)
    ensures k <= limit
  {
    if limit == 0 then 0 else if x > Pow1024(limit) then limit else StagesFired(x, limit - 1)
  }

  /** Stage `j` fires exactly when `x` exceeds `1024^j`. */
  lemma {:induction false} StagesFiredExactly(x: int, limit: nat, j: nat)
    requires 1 <= j <= limit
    ensures j <= StagesFired(x, limit) <==> x > Pow1024(j)
  {
    if x > Pow1024(limit) {
      Pow1024Grows(j, limit);
    } else if j < limit {
      StagesFiredExactly(x, limit - 1, j);
    }
  }

  /** A count of stages that fire up to `k` and not at `k + 1` is the number of stages fired. */
  lemma StagesFiredUnique(x: int, limit: nat, k: nat)
    requires k <= limit
    requires k == 0 || x > Pow1024(k)
    requires k == limit || x <= Pow1024(k + 1)
    ensures StagesFired(x, limit) == k
  {
    if k > 0 {
      StagesFiredExactly(x, limit, k);
    }
    if k < limit {
      StagesFiredExactly(x, limit, k + 1);
    }
  }

  /**
   * The example of the source's documentation: 3453262 bytes are shown in MB, with a value that
   * `%.2f` (which rounds half up) prints as "3.29".
   */
  lemma StorageExample()
    ensures StagesFired(3453262, 4) == 2 && StorageUnits[2] == "MB"
    ensures 3.285 <= 3453262.0 / Pow1024(2) as real < 3.295
  {
    assert Pow1024(2) == 1048576 && Pow1024(3) == 1073741824;
    StagesFiredUnique(3453262, 4, 2);
  }

  /** One more division by 1024 of `x / 1024^k`, and the test that guards it. */
  lemma ScaleStep(x: int, k: nat)
    ensures (x as real / Pow1024(k) as real > 1024.0) <==> x > Pow1024(k + 1)
    ensures x as real / Pow1024(k) as real / 1024.0 == x as real / Pow1024(k + 1) as real
  {
    var p := Pow1024(k) as real;
    assert Pow1024(k + 1) as real == 1024.0 * p;
    ScaleReal(x as real, p);
  }

  lemma ScaleReal(y: real, p: real)
    requires p > 0.0
    ensures (y / p > 1024.0) <==> y > 1024.0 * p
    ensures y / p / 1024.0 == y / (1024.0 * p)
  {
    var q := y / p;
    assert q * p == y;
    ScaleOrder(q, 1024.0, p);
    assert q / 1024.0 * (1024.0 * p) == y;
  }

  lemma ScaleOrder(q: real, c: real, p: real)
    requires p > 0.0
    ensures q > c <==> q * p > c * p
  {
    if q > c {
      assert (q - c) * p > 0.0;
    } else {
      assert (c - q) * p >= 0.0;
    }
  }

  /** The local `divide` of the source: one stage, which fires only above 1024. */
  method Divide(s: real, unit: string, annotation: string) returns (s': real, unit': string)
    ensures s > 1024.0 ==> s' == s / 1024.0 && unit' == annotation
    ensures s <= 1024.0 ==> s' == s && unit' == unit
  {
    s', unit' := s, unit;
    if s > 1024.0 {
      s' := s / 1024.0;
      unit' := annotation;
    }
  }

  /**
   * `getHumanReadableStorageSpace` without the `%.2f` rendering of `value`: the text is that
   * rendering followed by `separator` and `unit`.
   */
  method HumanReadableStorageSpace(fileSize: Int64, isSpaceInKB: bool, spaceBeforeUnit: bool)
    returns (value: real, separator: string, unit: string)
    ensures var first := if isSpaceInKB then 1 else 0;
      var k := StagesFired(fileSize, 4 - first);
      unit == StorageUnits[first + k] && value == fileSize as real / Pow1024(k) as real
    ensures separator == (if spaceBeforeUnit then " " else "")
    ensures value <= 1024.0 || unit == "TB"
    ensures isSpaceInKB ==> unit != "B"
  {
    ghost var first := if isSpaceInKB then 1 else 0;
    ghost var x: int := fileSize;
    unit := if isSpaceInKB then "KB" else "B";
    var s := fileSize as real;
    // k counts the stages that fired, done the stages run; once one stage does not fire, none does
    ghost var k, done := 0, 0;
    ghost var fired: bool;
    assert s == x as real / Pow1024(k) as real;
    if !isSpaceInKB {
      fired := s > 1024.0;
      ScaleStep(x, k);
      s, unit := Divide(s, unit, "KB");
      if fired { k := k + 1; }
      done := done + 1;
    }
    assert s == x as real / Pow1024(k) as real && unit == StorageUnits[first + k];
    assert (k == 0 || x > Pow1024(k)) && (k == done || s <= 1024.0);
    fired := s > 1024.0;
    ScaleStep(x, k);
    s, unit := Divide(s, unit, "MB");
    if fired { k := k + 1; }
    done := done + 1;
    assert s == x as real / Pow1024(k) as real && unit == StorageUnits[first + k];
    assert (k == 0 || x > Pow1024(k)) && (k == done || s <= 1024.0);
    fired := s > 1024.0;
    ScaleStep(x, k);
    s, unit := Divide(s, unit, "GB");
    if fired { k := k + 1; }
    done := done + 1;
    assert s == x as real / Pow1024(k) as real && unit == StorageUnits[first + k];
    assert (k == 0 || x > Pow1024(k)) && (k == done || s <= 1024.0);
    fired := s > 1024.0;
    ScaleStep(x, k);
    s, unit := Divide(s, unit, "TB");
    if fired { k := k + 1; }
    done := done + 1;
    assert s == x as real / Pow1024(k) as real && unit == StorageUnits[first + k];
    assert (k == 0 || x > Pow1024(k)) && (k == done || s <= 1024.0);
    assert done == 4 - first;
    ScaleStep(x, k);
    StagesFiredUnique(x, 4 - first, k);
    value := s;
    separator := if spaceBeforeUnit then " " else "";
  }

  // ===========================================================================
  // iterateBufferedReader
  // ===========================================================================

  /** A `BufferedReader` over a fixed text: its lines, and how many of them have been read. */
  class LineReader {
    const lines: seq<string>
    var cursor: nat

    predicate Valid()
      reads this
    {
      cursor <= |lines|
    }

    constructor (lines: seq<string>)
      ensures Valid() && this.lines == lines && cursor == 0
    {
      this.lines := lines;
      cursor := 0;
    }

    /** `readLine()`: the next line, or `None` once the input is exhausted. */
    method ReadLine() returns (line: Option<string>)
      requires Valid()
      modifies this
      ensures Valid()
      ensures old(cursor) < |lines| ==> line == Some(lines[old(cursor)]) && cursor == old(cursor) + 1
      ensures old(cursor) == |lines| ==> line == None && cursor == old(cursor)
    {
      if cursor < |lines| {
        line := Some(lines[cursor]);
        cursor := cursor + 1;
      } else {
        line := None;
      }
    }
  }

  /** The index of the first line whose trimmed text makes `loopFunction` return true, if any. */
  function FirstBreak(lines: seq<string>, loopFunction: string -> bool): (r: Option<nat>)
    ensures r.Some? ==> r.value < |lines| && loopFunction(Trim(lines[r.value]))
    ensures r.Some? ==> forall j :: 0 <= j < r.value ==> !loopFunction(Trim(lines[j]))
    ensures r.None? ==> forall j :: 0 <= j < |lines| ==> !loopFunction(Trim(lines[j]))
  {
    if lines == [] then None
    else if loopFunction(Trim(lines[0])) then Some(0)
    else match FirstBreak(lines[1..], loopFunction)
      case None => None
      case Some(i) => Some(i + 1)
  }

  /** How many lines the loop reads: up to and including the first break, or all of them. */
  function LinesRead(lines: seq<string>, loopFunction: string -> bool): (n: nat)
    ensures n <= |lines|
  {
    match FirstBreak(lines, loopFunction)
    case Some(i) => i + 1
    case None => |lines|
  }

  /**
   * `iterateBufferedReader`: feeds the trimmed lines to `loopFunction` until it returns true or
   * the reader is exhausted. `passed` lists what `loopFunction` was given, and `manualBreakRan`
   * says whether the optional `onManualBreakFunction` (present iff `hasOnManualBreak`) was run.
   */
  method IterateBufferedReader(reader: LineReader, loopFunction: string -> bool, hasOnManualBreak: bool)
    returns (passed: seq<string>, manualBreakRan: bool)
    requires reader.Valid()
    modifies reader
    ensures reader.Valid()
    ensures var rest := reader.lines[old(reader.cursor)..];
      var n := LinesRead(rest, loopFunction);
      reader.cursor == old(reader.cursor) + n
      && |passed| == n && (forall j :: 0 <= j < n ==> passed[j] == Trim(rest[j]))
      && manualBreakRan == (hasOnManualBreak && FirstBreak(rest, loopFunction).Some?)
  {
    ghost var start := reader.cursor;
    ghost var rest := reader.lines[start..];
    var doBreak := false;
    passed := [];
    while true
      invariant reader.Valid() && start <= reader.cursor && !doBreak
      invariant |passed| == reader.cursor - start
      invariant forall j :: 0 <= j < |passed| ==> passed[j] == Trim(rest[j]) && !loopFunction(passed[j])
      decreases |reader.lines| - reader.cursor
    {
      var line := reader.ReadLine();
      if line.None? {
        break;
      }
      doBreak := loopFunction(Trim(line.value));
      passed := passed + [Trim(line.value)];
      if doBreak {
        break;
      }
    }
    if doBreak {
      manualBreakRan := hasOnManualBreak;
    } else {
      manualBreakRan := false;
    }
  }
}

/** `norm_text` of the Ippodo tracker: Unicode compatibility normalisation,
    then `str.strip()`, then `re.sub(r"\s+", " ", ...)`.

    The NFKC step is a parameter `nf`; every structural property below holds
    whatever `nf` does, and idempotence holds for any `nf` obeying
    `NfkcLaws`. The reference definition is Python's `" ".join(s.split())`,
    written here as `Join(Words(s))`. */
module Normalize {
  import opened Text

  /** `s` with its leading whitespace removed. */
  function DropLeading(s: string): (r: string)
    ensures |r| <= |s|
    ensures r == s[|s| - |r|..]
    ensures r == [] || !IsSpace(r[0])
    ensures forall i :: 0 <= i < |s| - |r| ==> IsSpace(s[i])
    decreases |s|
  {
    if |s| > 0 && IsSpace(s[0]) then DropLeading(s[1..]) else s
  }

  /** `s` with its trailing whitespace removed. */
  function DropTrailing(s: string): (r: string)
    ensures |r| <= |s|
    ensures r == s[..|r|]
    ensures r == [] || !IsSpace(r[|r| - 1])
    ensures forall i :: |r| <= i < |s| ==> IsSpace(s[i])
    decreases |s|
  {
    if |s| > 0 && IsSpace(s[|s| - 1]) then DropTrailing(s[..|s| - 1]) else s
  }

  /** Python's `str.strip()` with no argument. */
  function Strip(s: string): (r: string)
    ensures r == [] || (!IsSpace(r[0]) && !IsSpace(r[|r| - 1]))
  {
    DropTrailing(DropLeading(s))
  }

  /** No whitespace other than U+0020, and never two whitespace characters
      in a row. */
  predicate SingleSpaced(r: string) {
    && (forall i :: 0 <= i < |r| && IsSpace(r[i]) ==> r[i] == ' ')
    && (forall i, j :: 0 <= i < |r| && 0 <= j < |r| && j == i + 1 ==> !(IsSpace(r[i]) && IsSpace(r[j])))
  }

  /** The shape every result of `norm_text` has: single-spaced, with no
      whitespace at either end. */
  predicate Canonical(r: string) {
    SingleSpaced(r) && (r == [] || (!IsSpace(r[0]) && !IsSpace(r[|r| - 1])))
  }

  /** `re.sub(r"\s+", " ", s)`: every maximal run of whitespace becomes one
      ASCII space. */
  function Collapse(s: string): (r: string)
    ensures |r| <= |s|
    ensures |r| == 0 <==> |s| == 0
    ensures |s| > 0 ==> (IsSpace(r[0]) <==> IsSpace(s[0]))
    ensures |s| > 0 ==> (IsSpace(r[|r| - 1]) <==> IsSpace(s[|s| - 1]))
    ensures SingleSpaced(r)
    decreases |s|
  {
    if s == [] then []
    else if IsSpace(s[0]) then
      var d := DropLeading(s[1..]);
      assert d != [] ==> d[|d| - 1] == s[|s| - 1];
      SingleSpacedConsSpace(Collapse(d));
      " " + Collapse(d)
    else
      SingleSpacedConsChar(s[0], Collapse(s[1..]));
      [s[0]] + Collapse(s[1..])
  }

  /** A space before a single-spaced string that starts with a non-space
      keeps it single-spaced. */
  lemma SingleSpacedConsSpace(r: string)
    requires SingleSpaced(r) && (r == [] || !IsSpace(r[0]))
    ensures SingleSpaced(" " + r)
  {
    var t := " " + r;
    forall i, j | 0 <= i < |t| && 0 <= j < |t| && j == i + 1
      ensures !(IsSpace(t[i]) && IsSpace(t[j]))
    {
      assert t[j] == r[i];
      if i > 0 {
        assert t[i] == r[i - 1];
      }
    }
  }

  /** A non-space character before a single-spaced string keeps it
      single-spaced. */
  lemma SingleSpacedConsChar(c: char, r: string)
    requires SingleSpaced(r) && !IsSpace(c)
    ensures SingleSpaced([c] + r)
  {
    var t := [c] + r;
    forall i, j | 0 <= i < |t| && 0 <= j < |t| && j == i + 1
      ensures !(IsSpace(t[i]) && IsSpace(t[j]))
    {
      assert t[j] == r[i];
      if i > 0 {
        assert t[i] == r[i - 1];
      }
    }
  }

  /** Strip, then collapse: the whitespace part of `norm_text`. */
  function Squash(s: string): (r: string)
    ensures Canonical(r)
  {
    Collapse(Strip(s))
  }

  /** `norm_text(s)`, with `nf` standing for `unicodedata.normalize("NFKC", _)`. */
  function NormText(nf: string -> string, s: string): (r: string)
    ensures Canonical(r)
  {
    Squash(nf(s))
  }

  /** What the model assumes of the NFKC stand-in: it is idempotent, and a
      string already in normal form stays in normal form once its whitespace
      is trimmed and collapsed to single U+0020 (U+0020 is a stable starter
      that never composes with its neighbours). */
  ghost predicate NfkcLaws(nf: string -> string) {
    && (forall s :: nf(nf(s)) == nf(s))
    && (forall t :: nf(t) == t ==> nf(Squash(t)) == Squash(t))
  }

  // ---------------------------------------------------------------------
  // Fixed points and idempotence

  /** Dropping the first character keeps a string single-spaced. */
  lemma SingleSpacedTail(t: string)
    requires SingleSpaced(t) && t != []
    ensures SingleSpaced(t[1..])
  {
    var u := t[1..];
    forall i, j | 0 <= i < |u| && 0 <= j < |u| && j == i + 1
      ensures !(IsSpace(u[i]) && IsSpace(u[j]))
    {
      assert u[i] == t[i + 1] && u[j] == t[j + 1];
    }
  }

  /** Collapsing an already single-spaced string changes nothing. */
  lemma {:induction false} CollapseFixesSingleSpaced(t: string)
    requires SingleSpaced(t)
    requires t == [] || !IsSpace(t[|t| - 1])
    ensures Collapse(t) == t
    decreases |t|
  {
    if t != [] {
      SingleSpacedTail(t);
      CollapseFixesSingleSpaced(t[1..]);
      if IsSpace(t[0]) {
        assert t[0] == ' ';
        assert !(IsSpace(t[0]) && IsSpace(t[1]));
        CollapseSpaceHead(t);
      } else {
        CollapseCharHead(t);
      }
    }
  }

  /** A single space before a fixed point of `Collapse` that starts with a
      non-space is kept as it is. */
  lemma CollapseSpaceHead(t: string)
    requires |t| > 1 && t[0] == ' ' && !IsSpace(t[1])
    requires Collapse(t[1..]) == t[1..]
    ensures Collapse(t) == t
  {
    var u := t[1..];
    assert DropLeading(u) == u;
    assert t == [t[0]] + u;
  }

  /** A non-space character before a fixed point of `Collapse` is kept. */
  lemma CollapseCharHead(t: string)
    requires |t| > 0 && !IsSpace(t[0])
    requires Collapse(t[1..]) == t[1..]
    ensures Collapse(t) == t
  {
    assert t == [t[0]] + t[1..];
  }

  /** A canonical string is its own normal form. */
  lemma SquashFixesCanonical(t: string)
    requires Canonical(t)
    ensures Squash(t) == t
  {
    assert DropLeading(t) == t;
    assert DropTrailing(t) == t;
    CollapseFixesSingleSpaced(t);
  }

  /** Normalising whitespace twice is normalising it once. */
  lemma SquashIdempotent(s: string)
    ensures Squash(Squash(s)) == Squash(s)
  {
    SquashFixesCanonical(Squash(s));
  }

  /** `norm_text(norm_text(s)) == norm_text(s)` whenever the NFKC stand-in
      obeys the laws real NFKC obeys. */
  lemma NormTextIdempotent(nf: string -> string, s: string)
    requires NfkcLaws(nf)
    ensures NormText(nf, NormText(nf, s)) == NormText(nf, s)
  {
    var t := nf(s);
    assert nf(t) == t;
    assert nf(Squash(t)) == Squash(t);
    SquashIdempotent(t);
  }

  // ---------------------------------------------------------------------
  // The reference definition: " ".join(s.split())

  /** A word of `str.split()`: a non-empty run without whitespace. */
  predicate IsWord(w: string) {
    |w| > 0 && forall i :: 0 <= i < |w| ==> !IsSpace(w[i])
  }

  /** Python's `s.split()`: the maximal non-whitespace runs of `s`, in order. */
  function Words(s: string): (ws: seq<string>)
    ensures forall k :: 0 <= k < |ws| ==> IsWord(ws[k])
    ensures |s| > 0 && !IsSpace(s[0]) ==> |ws| > 0 && IsWord(ws[0]) && ws[0][0] == s[0]
    decreases |s|
  {
    if s == [] then []
    else if IsSpace(s[0]) then Words(s[1..])
    else
      var rest := Words(s[1..]);
      if |s| > 1 && !IsSpace(s[1]) then [[s[0]] + rest[0]] + rest[1..]
      else [[s[0]]] + rest
  }

  /** Python's `" ".join(ws)`. */
  function Join(ws: seq<string>): string
    decreases |ws|
  {
    if |ws| == 0 then ""
    else if |ws| == 1 then ws[0]
    else ws[0] + " " + Join(ws[1..])
  }

  /** Leading whitespace contributes no word. */
  lemma {:induction false} WordsDropLeading(s: string)
    ensures Words(DropLeading(s)) == Words(s)
    decreases |s|
  {
    if |s| > 0 && IsSpace(s[0]) {
      WordsDropLeading(s[1..]);
    }
  }

  /** Trailing whitespace contributes no word. */
  lemma {:induction false} WordsTrailingSpace(s: string, k: nat)
    requires k <= |s|
    requires forall i :: k <= i < |s| ==> IsSpace(s[i])
    ensures Words(s[..k]) == Words(s)
    decreases |s|
  {
    if |s| == 0 {
      assert s[..k] == s;
    } else if k == 0 {
      assert s[..k] == [];
      WordsTrailingSpace(s[1..], 0);
      assert s[1..][..0] == [];
    } else {
      var u := s[1..];
      WordsTrailingSpace(u, k - 1);
      assert s[..k][1..] == u[..k - 1];
      if !IsSpace(s[0]) && k > 1 {
        assert s[..k][1] == s[1];
      }
    }
  }

  /** Stripping keeps the words. */
  lemma WordsStrip(s: string)
    ensures Words(Strip(s)) == Words(s)
  {
    var d := DropLeading(s);
    WordsDropLeading(s);
    WordsTrailingSpace(d, |DropTrailing(d)|);
  }

  /** Collapsing whitespace runs keeps the words. */
  lemma {:induction false} WordsCollapse(s: string)
    ensures Words(Collapse(s)) == Words(s)
    decreases |s|
  {
    if s == [] {
    } else if IsSpace(s[0]) {
      var d := DropLeading(s[1..]);
      WordsCollapse(d);
      WordsDropLeading(s[1..]);
      assert (" " + Collapse(d))[1..] == Collapse(d);
    } else {
      WordsCollapse(s[1..]);
      assert ([s[0]] + Collapse(s[1..]))[1..] == Collapse(s[1..]);
    }
  }

  /** Prepending a character to the first word prepends it to the join. */
  lemma JoinConsChar(c: char, ws: seq<string>)
    requires |ws| > 0
    ensures Join([[c] + ws[0]] + ws[1..]) == [c] + Join(ws)
  {
    var vs := [[c] + ws[0]] + ws[1..];
    assert |vs| == |ws| && vs[0] == [c] + ws[0];
    if |ws| > 1 {
      assert vs[1..] == ws[1..];
      var rest := " " + Join(ws[1..]);
      assert Join(vs) == ([c] + ws[0]) + rest;
      assert Join(ws) == ws[0] + rest;
      ConcatAssoc([c], ws[0], rest);
    }
  }

  lemma ConcatAssoc(a: string, b: string, c: string)
    ensures (a + b) + c == a + (b + c)
  {
  }

  /** A canonical string is the join of its own words. */
  lemma {:induction false} JoinWordsOfCanonical(t: string)
    requires Canonical(t)
    ensures Join(Words(t)) == t
    decreases |t|
  {
    if t != [] {
      var y := t[1..];
      if y == [] {
      } else if !IsSpace(y[0]) {
        assert Canonical(y) by {
          assert forall i :: 0 <= i < |y| ==> y[i] == t[i + 1];
        }
        JoinWordsOfCanonical(y);
        JoinConsChar(t[0], Words(y));
      } else {
        var z := y[1..];
        assert |y| > 1 && !IsSpace(y[1]);
        assert y[0] == ' ';
        assert Canonical(z) by {
          assert forall i :: 0 <= i < |z| ==> z[i] == t[i + 2];
        }
        JoinWordsOfCanonical(z);
        assert Words(t) == [[t[0]]] + Words(y);
        assert Words(y) == Words(z);
        assert |Words(z)| > 0;
        var ws := [[t[0]]] + Words(z);
        assert ws[1..] == Words(z);
        assert t == [t[0]] + " " + z;
      }
    }
  }

  /** `norm_text`'s whitespace handling is exactly `" ".join(s.split())`. */
  lemma SquashIsJoinOfWords(s: string)
    ensures Squash(s) == Join(Words(s))
  {
    var r := Squash(s);
    JoinWordsOfCanonical(r);
    WordsCollapse(Strip(s));
    WordsStrip(s);
  }

  /** Two texts normalise alike exactly when they have the same words. */
  lemma SquashEqualIffSameWords(s: string, t: string)
    ensures Squash(s) == Squash(t) <==> Words(s) == Words(t)
  {
    SquashIsJoinOfWords(s);
    SquashIsJoinOfWords(t);
    WordsCollapse(Strip(s));
    WordsStrip(s);
    WordsCollapse(Strip(t));
    WordsStrip(t);
  }

  // ---------------------------------------------------------------------
  // Case is left alone

  /** The non-whitespace characters of `s`, in order. */
  function NonSpace(s: string): string
    decreases |s|
  {
    if s == [] then []
    else if IsSpace(s[0]) then NonSpace(s[1..])
    else [s[0]] + NonSpace(s[1..])
  }

  lemma {:induction false} NonSpaceAppend(a: string, b: string)
    ensures NonSpace(a + b) == NonSpace(a) + NonSpace(b)
    decreases |a|
  {
    if a == [] {
      assert a + b == b;
    } else {
      NonSpaceAppend(a[1..], b);
      assert (a + b)[1..] == a[1..] + b;
    }
  }

  lemma {:induction false} NonSpaceAllSpace(s: string)
    requires forall i :: 0 <= i < |s| ==> IsSpace(s[i])
    ensures NonSpace(s) == []
    decreases |s|
  {
    if s != [] {
      NonSpaceAllSpace(s[1..]);
    }
  }

  lemma {:induction false} NonSpaceCollapse(s: string)
    ensures NonSpace(Collapse(s)) == NonSpace(s)
    decreases |s|
  {
    if s == [] {
    } else if IsSpace(s[0]) {
      var d := DropLeading(s[1..]);
      NonSpaceCollapse(d);
      assert (" " + Collapse(d))[1..] == Collapse(d);
      NonSpaceDropLeading(s[1..]);
    } else {
      NonSpaceCollapse(s[1..]);
      assert ([s[0]] + Collapse(s[1..]))[1..] == Collapse(s[1..]);
    }
  }

  lemma NonSpaceDropLeading(s: string)
    ensures NonSpace(DropLeading(s)) == NonSpace(s)
  {
    var d := DropLeading(s);
    var k := |s| - |d|;
    assert s == s[..k] + d;
    NonSpaceAppend(s[..k], d);
    NonSpaceAllSpace(s[..k]);
  }

  lemma NonSpaceDropTrailing(d: string)
    ensures NonSpace(DropTrailing(d)) == NonSpace(d)
  {
    var e := DropTrailing(d);
    assert d == e + d[|e|..];
    NonSpaceAppend(e, d[|e|..]);
    NonSpaceAllSpace(d[|e|..]);
  }

  lemma NonSpaceStrip(s: string)
    ensures NonSpace(Strip(s)) == NonSpace(s)
  {
    NonSpaceDropLeading(s);
    NonSpaceDropTrailing(DropLeading(s));
  }

  /** `norm_text` keeps every non-whitespace character of the NFKC form, in
      order and in its original case: it does not lowercase. */
  lemma NormTextKeepsNonSpace(nf: string -> string, s: string)
    ensures NonSpace(NormText(nf, s)) == NonSpace(nf(s))
  {
    NonSpaceCollapse(Strip(nf(s)));
    NonSpaceStrip(nf(s));
  }

  // ---------------------------------------------------------------------
  // Lowercasing commutes with whitespace normalisation

  lemma LowerTail(s: string)
    requires |s| > 0
    ensures Lower(s)[1..] == Lower(s[1..])
    ensures Lower(s)[..|s| - 1] == Lower(s[..|s| - 1])
  {
  }

  lemma {:induction false} LowerDropLeading(s: string)
    ensures Lower(DropLeading(s)) == DropLeading(Lower(s))
    decreases |s|
  {
    if |s| > 0 {
      LowerCharKeepsSpace(s[0]);
      LowerTail(s);
      if IsSpace(s[0]) {
        LowerDropLeading(s[1..]);
      }
    }
  }

  lemma {:induction false} LowerDropTrailing(s: string)
    ensures Lower(DropTrailing(s)) == DropTrailing(Lower(s))
    decreases |s|
  {
    if |s| > 0 {
      LowerCharKeepsSpace(s[|s| - 1]);
      LowerTail(s);
      if IsSpace(s[|s| - 1]) {
        LowerDropTrailing(s[..|s| - 1]);
      }
    }
  }

  lemma {:induction false} LowerCollapse(s: string)
    ensures Lower(Collapse(s)) == Collapse(Lower(s))
    decreases |s|
  {
    if |s| > 0 {
      LowerCharKeepsSpace(s[0]);
      LowerTail(s);
      if IsSpace(s[0]) {
        var d := DropLeading(s[1..]);
        LowerCollapse(d);
        LowerDropLeading(s[1..]);
        assert Lower(" " + Collapse(d)) == " " + Lower(Collapse(d));
      } else {
        LowerCollapse(s[1..]);
        assert Lower([s[0]] + Collapse(s[1..])) == [LowerChar(s[0])] + Lower(Collapse(s[1..]));
      }
    }
  }

  /** Lowercasing before or after whitespace normalisation gives the same
      string. */
  lemma LowerSquash(s: string)
    ensures Lower(Squash(s)) == Squash(Lower(s))
  {
    LowerDropLeading(s);
    LowerDropTrailing(DropLeading(s));
    LowerCollapse(Strip(s));
  }
}

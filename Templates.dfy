/** The pure string logic of the generator (src/Generators/Generator.php):
    finding the `{name}` holders of a format string, taking the name out of a
    holder, and replacing the first occurrence of a holder in a buffer.

    The two patterns of the source are `/(?<holder>{\w+})/` and
    `/{(?<name>\w+)}/`, where `\w` is the ASCII class `[A-Za-z0-9_]`. Because
    `\w` matches neither brace, a holder token is determined by its opening
    brace, and the scanner below is the regular-expression match written out. */
module Templates {
  import opened Php

  const OpenBrace: byte := 0x7B
  const CloseBrace: byte := 0x7D

  /** `\w`: an ASCII letter, digit or underscore. */
  predicate IsWordChar(b: byte)
  {
    (0x30 <= b <= 0x39) || (0x41 <= b <= 0x5A) || (0x61 <= b <= 0x7A) || b == 0x5F
  }

  /** `t` is a holder token: `{`, one or more word characters, `}`. */
  predicate IsHolder(t: Bytes)
  {
    && |t| >= 3
    && t[0] == OpenBrace
    && t[|t| - 1] == CloseBrace
    && forall i :: 0 < i < |t| - 1 ==> IsWordChar(t[i])
  }

  /** `needle` occurs in `hay` starting at position `i`. */
  predicate OccursAt(needle: Bytes, hay: Bytes, i: nat)
  {
    i + |needle| <= |hay| && hay[i..i + |needle|] == needle
  }

  /** `needle` is a factor (substring) of `hay`. */
  predicate Occurs(needle: Bytes, hay: Bytes)
  {
    exists i: nat | i <= |hay| :: OccursAt(needle, hay, i)
  }

  /** The first occurrence of `needle` in `hay` starts at `p`. */
  predicate FirstAt(needle: Bytes, hay: Bytes, p: nat)
  {
    OccursAt(needle, hay, p) && forall j :: 0 <= j < p ==> !OccursAt(needle, hay, j)
  }

  /** No byte of `s` is an opening brace. */
  predicate NoOpenBrace(s: Bytes)
  {
    forall i :: 0 <= i < |s| ==> s[i] != OpenBrace
  }

  /** The length of the longest run of word characters at the front of `s`
      (how far the greedy `\w+` reaches). */
  function WordRun(s: Bytes): (n: nat)
    ensures n <= |s|
    ensures forall i :: 0 <= i < n ==> IsWordChar(s[i])
    ensures n < |s| ==> !IsWordChar(s[n])
  {
    if |s| > 0 && IsWordChar(s[0]) then 1 + WordRun(s[1..]) else 0
  }

  /** The length of the holder token at the front of `s`, or 0 when the
      pattern does not match at that position. */
  function HolderLength(s: Bytes): (n: nat)
    ensures n <= |s|
    ensures n > 0 ==> IsHolder(s[..n])
  {
    if |s| > 0 && s[0] == OpenBrace then
      var k := WordRun(s[1..]);
      if k > 0 && 1 + k < |s| && s[1 + k] == CloseBrace then k + 2 else 0
    else 0
  }

  /** A holder token at the front of `s` is exactly what `HolderLength` finds. */
  lemma HolderLengthExact(s: Bytes, n: nat)
    requires n <= |s| && IsHolder(s[..n])
    ensures HolderLength(s) == n
  {
    var t := s[..n];
    var k := WordRun(s[1..]);
    assert forall i :: 0 <= i < n - 2 ==> s[1..][i] == t[i + 1];
    assert s[1..][n - 2] == t[n - 1] == CloseBrace;
  }

  /** `holders($format)`: the matches of `{\w+}`, scanned left to right; after
      a match the scan resumes behind it, otherwise one byte further on. */
  function Holders(s: Bytes): (hs: seq<Bytes>)
    ensures forall i :: 0 <= i < |hs| ==> IsHolder(hs[i])
    decreases |s|
  {
    if s == [] then []
    else
      var n := HolderLength(s);
      if n > 0 then [s[..n]] + Holders(s[n..]) else Holders(s[1..])
  }

  /** The text between the holders: `Gaps(s)[k]` precedes `Holders(s)[k]`, and
      the last gap follows the last holder. */
  function Gaps(s: Bytes): (gs: seq<Bytes>)
    ensures |gs| == |Holders(s)| + 1
    decreases |s|
  {
    if s == [] then [[]]
    else
      var n := HolderLength(s);
      if n > 0 then [[]] + Gaps(s[n..])
      else
        var rest := Gaps(s[1..]);
        [[s[0]] + rest[0]] + rest[1..]
  }

  /** `gs[0] + fs[0] + gs[1] + fs[1] + ... + gs[|fs|]`. */
  function Weave(gs: seq<Bytes>, fs: seq<Bytes>): Bytes
    requires |gs| == |fs| + 1
    decreases |fs|
  {
    if fs == [] then gs[0] else gs[0] + fs[0] + Weave(gs[1..], fs[1..])
  }

  /** Reference definition: the holder token starting at EVERY position of
      `s`, in order, without skipping the inside of a match. */
  function AllTokens(s: Bytes): seq<Bytes>
    decreases |s|
  {
    if s == [] then []
    else
      var n := HolderLength(s);
      (if n > 0 then [s[..n]] else []) + AllTokens(s[1..])
  }

  /** Text put in front of the first gap comes out in front of the woven string. */
  lemma WeavePrepend(b: Bytes, gs: seq<Bytes>, fs: seq<Bytes>)
    requires |gs| == |fs| + 1
    ensures Weave([b + gs[0]] + gs[1..], fs) == b + Weave(gs, fs)
  {
    var gs' := [b + gs[0]] + gs[1..];
    assert gs'[0] == b + gs[0] && gs'[1..] == gs[1..];
  }

  /** A match at the front: an empty gap, then the holder. */
  lemma GapsAndHoldersAtMatch(s: Bytes)
    requires s != [] && HolderLength(s) > 0
    requires s[HolderLength(s)..] == Weave(Gaps(s[HolderLength(s)..]), Holders(s[HolderLength(s)..]))
    ensures s == Weave(Gaps(s), Holders(s))
  {
    var n := HolderLength(s);
    var gs, hs := Gaps(s), Holders(s);
    assert gs == [[]] + Gaps(s[n..]) && hs == [s[..n]] + Holders(s[n..]);
    assert gs[1..] == Gaps(s[n..]) && hs[1..] == Holders(s[n..]);
    assert s == gs[0] + hs[0] + s[n..];
  }

  /** No match at the front: the first byte joins the first gap. */
  lemma GapsAndHoldersNoMatch(s: Bytes)
    requires s != [] && HolderLength(s) == 0
    requires s[1..] == Weave(Gaps(s[1..]), Holders(s[1..]))
    ensures s == Weave(Gaps(s), Holders(s))
  {
    var rest := Gaps(s[1..]);
    assert Gaps(s) == [[s[0]] + rest[0]] + rest[1..];
    assert Holders(s) == Holders(s[1..]);
    WeavePrepend([s[0]], rest, Holders(s[1..]));
    assert s == [s[0]] + s[1..];
  }

  /** The format string is its gaps and holders put back together. */
  lemma {:induction false} GapsAndHolders(s: Bytes)
    ensures s == Weave(Gaps(s), Holders(s))
    decreases |s|
  {
    if s != [] {
      var n := HolderLength(s);
      if n > 0 {
        GapsAndHolders(s[n..]);
        GapsAndHoldersAtMatch(s);
      } else {
        GapsAndHolders(s[1..]);
        GapsAndHoldersNoMatch(s);
      }
    }
  }

  /** Bytes without an opening brace start no token, so skipping them misses none. */
  lemma {:induction false} SkipNoOpenBrace(s: Bytes, k: nat)
    requires k <= |s|
    requires forall j :: 0 <= j < k ==> s[j] != OpenBrace
    ensures AllTokens(s) == AllTokens(s[k..])
    decreases k
  {
    if k > 0 {
      assert HolderLength(s) == 0;
      SkipNoOpenBrace(s[1..], k - 1);
      assert s[1..][k - 1..] == s[k..];
    }
  }

  /** Holder tokens cannot overlap, so the left-to-right scan that skips the
      inside of each match still finds every token of the format, in order and
      with repetitions. */
  lemma {:induction false} HoldersAreAllTokens(s: Bytes)
    ensures Holders(s) == AllTokens(s)
    decreases |s|
  {
    if s != [] {
      var n := HolderLength(s);
      if n > 0 {
        HoldersAreAllTokens(s[n..]);
        assert forall j :: 0 <= j < n - 1 ==> s[1..][j] == s[..n][j + 1];
        SkipNoOpenBrace(s[1..], n - 1);
        assert s[1..][n - 1..] == s[n..];
      } else {
        HoldersAreAllTokens(s[1..]);
      }
    }
  }

  /** Every token `AllTokens` lists is a holder token occurring in `s`. */
  lemma {:induction false} AllTokensSound(s: Bytes, t: Bytes)
    requires t in AllTokens(s)
    ensures IsHolder(t) && Occurs(t, s)
    decreases |s|
  {
    var n := HolderLength(s);
    if n > 0 && t == s[..n] {
      assert OccursAt(t, s, 0);
    } else {
      AllTokensSound(s[1..], t);
      var i: nat :| i <= |s[1..]| && OccursAt(t, s[1..], i);
      assert OccursAt(t, s[1..], i);
      assert s[i + 1..i + 1 + |t|] == s[1..][i..i + |t|];
      assert OccursAt(t, s, i + 1);
    }
  }

  /** Every holder token occurring at position `i` of `s` is listed by `AllTokens`. */
  lemma {:induction false} AllTokensComplete(s: Bytes, t: Bytes, i: nat)
    requires IsHolder(t) && OccursAt(t, s, i)
    ensures t in AllTokens(s)
    decreases i
  {
    if i == 0 {
      assert s[..|t|] == t;
      HolderLengthExact(s, |t|);
    } else {
      assert s[1..][i - 1..i - 1 + |t|] == s[i..i + |t|];
      AllTokensComplete(s[1..], t, i - 1);
    }
  }

  /** The holders of a format are exactly its substrings of the form `{\w+}`. */
  lemma HolderMembers(s: Bytes, t: Bytes)
    ensures t in Holders(s) <==> IsHolder(t) && Occurs(t, s)
  {
    HoldersAreAllTokens(s);
    if t in Holders(s) {
      AllTokensSound(s, t);
    }
    if IsHolder(t) && Occurs(t, s) {
      var i: nat :| i <= |s| && OccursAt(t, s, i);
      AllTokensComplete(s, t, i);
    }
  }

  /** A format has no holders exactly when no substring of it is a holder token. */
  lemma NoHolders(s: Bytes)
    ensures Holders(s) == [] <==> forall t :: IsHolder(t) ==> !Occurs(t, s)
  {
    if Holders(s) != [] {
      HolderMembers(s, Holders(s)[0]);
    }
    forall t | IsHolder(t) && Occurs(t, s)
      ensures Holders(s) != []
    {
      HolderMembers(s, t);
    }
  }

  /** `name($holder)`: the word characters of the first `{\w+}` match, or null. */
  function Name(h: Bytes): (r: Option<Bytes>)
    ensures r.None? <==> Holders(h) == []
    ensures r.Some? ==> IsHolder([OpenBrace] + r.value + [CloseBrace])
  {
    var hs := Holders(h);
    if hs == [] then None
    else
      var t := hs[0];
      assert IsHolder(t);
      assert t == [OpenBrace] + t[1..|t| - 1] + [CloseBrace];
      Some(t[1..|t| - 1])
  }

  /** The name of a holder token is what lies between its braces. */
  lemma NameOfHolder(h: Bytes)
    requires IsHolder(h)
    ensures Name(h) == Some(h[1..|h| - 1])
  {
    assert h[..|h|] == h;
    HolderLengthExact(h, |h|);
    assert h[|h|..] == [];
  }

  /** The only holder whose name PHP treats as false is `{0}`. */
  lemma FalsyHolder(h: Bytes)
    requires IsHolder(h)
    ensures IsFalsy(Name(h)) <==> h == [OpenBrace, 0x30, CloseBrace]
  {
    NameOfHolder(h);
    if h == [OpenBrace, 0x30, CloseBrace] {
      assert h[1..|h| - 1] == [0x30];
    }
    if h[1..|h| - 1] == [0x30] {
      assert h == [h[0]] + h[1..|h| - 1] + [h[|h| - 1]];
    }
  }

  /** `strpos($hay, $needle, $from)`: the first position at or after `from`
      where the needle occurs. An empty needle is found at `from`. */
  function FindFrom(needle: Bytes, hay: Bytes, from: nat): (r: Option<nat>)
    requires from <= |hay|
    ensures r.Some? ==> from <= r.value && OccursAt(needle, hay, r.value)
    ensures r.Some? ==> forall j :: from <= j < r.value ==> !OccursAt(needle, hay, j)
    ensures r.None? ==> forall j: nat :: from <= j ==> !OccursAt(needle, hay, j)
    decreases |hay| - from
  {
    if OccursAt(needle, hay, from) then Some(from)
    else if from == |hay| then None
    else FindFrom(needle, hay, from + 1)
  }

  /** `replaceFirst($needle, $haystack, $replacement)`: `substr_replace` at the
      position `strpos` reports, or the haystack itself when the needle is absent. */
  function ReplaceFirst(needle: Bytes, hay: Bytes, replacement: Bytes): (r: Bytes)
    ensures !Occurs(needle, hay) ==> r == hay
    ensures forall p: nat :: FirstAt(needle, hay, p) ==> r == hay[..p] + replacement + hay[p + |needle|..]
    ensures Occurs(needle, hay) ==> |r| == |hay| - |needle| + |replacement|
  {
    match FindFrom(needle, hay, 0)
    case None => hay
    case Some(p) =>
      assert forall q: nat :: FirstAt(needle, hay, q) ==> q == p;
      hay[..p] + replacement + hay[p + |needle|..]
  }

  /** `replace($buffer, $holder, $replacement)` only reorders the arguments:
      the first occurrence of the holder in the buffer is replaced, and a
      buffer without the holder is returned as it is. */
  function Replace(buffer: Bytes, holder: Bytes, replacement: Bytes): (r: Bytes)
    ensures !Occurs(holder, buffer) ==> r == buffer
    ensures forall p: nat :: FirstAt(holder, buffer, p) ==> r == buffer[..p] + replacement + buffer[p + |holder|..]
  {
    ReplaceFirst(holder, buffer, replacement)
  }

  /** Replacing a needle by itself changes nothing: a holder with a falsy
      name stays in the buffer as literal text. */
  lemma ReplaceBySelf(needle: Bytes, hay: Bytes)
    ensures ReplaceFirst(needle, hay, needle) == hay
  {
    if Occurs(needle, hay) {
      var p := FindFrom(needle, hay, 0).value;
      assert hay == hay[..p] + hay[p..p + |needle|] + hay[p + |needle|..];
    }
  }

  /** The buffer after the loop of `generate`: the holders `hs` are taken in
      order and the first occurrence of each in the current buffer is replaced
      by the corresponding word of `ws`. Filling every holder with itself, as
      happens to holders with a falsy name, leaves the format unchanged. */
  function Fill(format: Bytes, hs: seq<Bytes>, ws: seq<Bytes>): (r: Bytes)
    requires |hs| == |ws|
    ensures (forall k :: 0 <= k < |hs| ==> ws[k] == hs[k]) ==> r == format
    decreases |hs|
  {
    if hs == [] then format
    else
      var b := Fill(format, hs[..|hs| - 1], ws[..|ws| - 1]);
      ReplaceBySelf(hs[|hs| - 1], b);
      Replace(b, hs[|hs| - 1], ws[|ws| - 1])
  }

  /** One more turn of the loop of `generate`. */
  lemma FillStep(format: Bytes, hs: seq<Bytes>, ws: seq<Bytes>, w: Bytes)
    requires |ws| < |hs|
    ensures Fill(format, hs[..|ws| + 1], ws + [w]) == Replace(Fill(format, hs[..|ws|], ws), hs[|ws|], w)
  {
    var i := |ws|;
    assert hs[..i + 1][..i] == hs[..i];
    assert (ws + [w])[..i] == ws;
  }

  /** Cutting a woven string at its `k`-th filler. */
  lemma {:induction false} WeaveSplit(gs: seq<Bytes>, fs: seq<Bytes>, k: nat)
    requires |gs| == |fs| + 1 && k < |fs|
    ensures Weave(gs, fs) == Weave(gs[..k + 1], fs[..k]) + fs[k] + Weave(gs[k + 1..], fs[k + 1..])
    decreases k
  {
    if k > 0 {
      WeaveSplit(gs[1..], fs[1..], k - 1);
      assert gs[1..][..k] == gs[..k + 1][1..];
      assert fs[1..][..k - 1] == fs[..k][1..];
      assert gs[1..][k..] == gs[k + 1..];
      assert fs[1..][k..] == fs[k + 1..];
    }
  }

  /** A woven string whose gaps and fillers are free of `{` is free of `{`. */
  lemma {:induction false} WeaveNoOpenBrace(gs: seq<Bytes>, fs: seq<Bytes>)
    requires |gs| == |fs| + 1
    requires forall i :: 0 <= i < |gs| ==> NoOpenBrace(gs[i])
    requires forall i :: 0 <= i < |fs| ==> NoOpenBrace(fs[i])
    ensures NoOpenBrace(Weave(gs, fs))
    decreases |fs|
  {
    if fs != [] {
      WeaveNoOpenBrace(gs[1..], fs[1..]);
      assert forall i :: 0 <= i < |gs| - 1 ==> gs[1..][i] == gs[i + 1];
      assert forall i :: 0 <= i < |fs| - 1 ==> fs[1..][i] == fs[i + 1];
      assert NoOpenBrace(gs[0] + fs[0]);
    }
  }

  /** In `a + h + b` with no `{` in `a`, a needle beginning with `{` is first found right after `a`. */
  lemma ReplaceAfterBraceFree(a: Bytes, h: Bytes, b: Bytes, w: Bytes)
    requires NoOpenBrace(a) && |h| > 0 && h[0] == OpenBrace
    ensures ReplaceFirst(h, a + h + b, w) == a + w + b
  {
    var hay := a + h + b;
    assert hay[|a|..|a| + |h|] == h;
    assert OccursAt(h, hay, |a|);
    assert forall j :: 0 <= j < |a| ==> hay[j] == a[j];
    assert hay[..|a|] == a;
    assert hay[|a| + |h|..] == b;
  }

  /** Replacing the `i`-th filler of a brace-free weave, when it is a needle
      beginning with `{`, puts the word in its place. */
  lemma WeaveReplaceStep(gs: seq<Bytes>, hs: seq<Bytes>, ws: seq<Bytes>, i: nat)
    requires |gs| == |hs| + 1 && |ws| == |hs| && i < |hs|
    requires forall j :: 0 <= j < |gs| ==> NoOpenBrace(gs[j])
    requires forall j :: 0 <= j < |ws| ==> NoOpenBrace(ws[j])
    requires |hs[i]| > 0 && hs[i][0] == OpenBrace
    ensures Replace(Weave(gs, ws[..i] + hs[i..]), hs[i], ws[i]) == Weave(gs, ws[..i + 1] + hs[i + 1..])
  {
    var before := ws[..i] + hs[i..];
    var after := ws[..i + 1] + hs[i + 1..];
    WeaveSplit(gs, before, i);
    WeaveSplit(gs, after, i);
    assert before[..i] == ws[..i] == after[..i];
    assert before[i + 1..] == hs[i + 1..] == after[i + 1..];
    assert before[i] == hs[i] && after[i] == ws[i];
    WeaveNoOpenBrace(gs[..i + 1], ws[..i]);
    ReplaceAfterBraceFree(Weave(gs[..i + 1], ws[..i]), hs[i], Weave(gs[i + 1..], hs[i + 1..]), ws[i]);
  }

  /** The first `k` holders have been filled in place and the rest are untouched. */
  ghost predicate FilledInPlace(format: Bytes, ws: seq<Bytes>, k: nat)
    requires |ws| == |Holders(format)| && k <= |ws|
  {
    Fill(format, Holders(format)[..k], ws[..k]) == Weave(Gaps(format), ws[..k] + Holders(format)[k..])
  }

  /** Filling one more holder keeps the words in place. */
  lemma FillInPlaceStep(format: Bytes, ws: seq<Bytes>, i: nat)
    requires |ws| == |Holders(format)| && i < |ws|
    requires forall j :: 0 <= j < |Gaps(format)| ==> NoOpenBrace(Gaps(format)[j])
    requires forall j :: 0 <= j < |ws| ==> NoOpenBrace(ws[j])
    requires FilledInPlace(format, ws, i)
    ensures FilledInPlace(format, ws, i + 1)
  {
    var hs, gs, pre := Holders(format), Gaps(format), ws[..i];
    assert pre + [ws[i]] == ws[..i + 1];
    assert IsHolder(hs[i]);
    calc {
      Fill(format, hs[..i + 1], ws[..i + 1]);
      Fill(format, hs[..|pre| + 1], pre + [ws[i]]);
      { FillStep(format, hs, pre, ws[i]); }
      Replace(Fill(format, hs[..i], pre), hs[i], ws[i]);
      Replace(Weave(gs, pre + hs[i..]), hs[i], ws[i]);
      { WeaveReplaceStep(gs, hs, ws, i); }
      Weave(gs, ws[..i + 1] + hs[i + 1..]);
    }
  }

  lemma {:induction false} FillPrefixInPlace(format: Bytes, ws: seq<Bytes>, k: nat)
    requires |ws| == |Holders(format)| && k <= |ws|
    requires forall i :: 0 <= i < |Gaps(format)| ==> NoOpenBrace(Gaps(format)[i])
    requires forall i :: 0 <= i < |ws| ==> NoOpenBrace(ws[i])
    ensures FilledInPlace(format, ws, k)
    decreases k
  {
    if k == 0 {
      GapsAndHolders(format);
      assert ws[..0] + Holders(format)[0..] == Holders(format);
    } else {
      FillPrefixInPlace(format, ws, k - 1);
      FillInPlaceStep(format, ws, k - 1);
    }
  }

  /** When every `{` of the format belongs to a holder and no word contains a
      `{`, `generate` puts the `k`-th word exactly where the `k`-th holder was. */
  lemma FillInPlace(format: Bytes, ws: seq<Bytes>)
    requires |ws| == |Holders(format)|
    requires forall i :: 0 <= i < |Gaps(format)| ==> NoOpenBrace(Gaps(format)[i])
    requires forall i :: 0 <= i < |ws| ==> NoOpenBrace(ws[i])
    ensures Fill(format, Holders(format), ws) == Weave(Gaps(format), ws)
  {
    var n := |ws|;
    FillPrefixInPlace(format, ws, n);
    assert FilledInPlace(format, ws, n);
    assert Holders(format)[..n] == Holders(format) && ws[..n] == ws;
    assert ws + Holders(format)[n..] == ws;
  }

  /** A format without `{` has no holders. */
  lemma NoBraceNoHolders(format: Bytes)
    requires NoOpenBrace(format)
    ensures Holders(format) == []
  {
    if Holders(format) != [] {
      HolderMembers(format, Holders(format)[0]);
    }
  }

  /** A format that starts with a holder token lists it first. */
  lemma HoldersOfLeadingHolder(h: Bytes, rest: Bytes)
    requires IsHolder(h)
    ensures Holders(h + rest) == [h] + Holders(rest)
  {
    var s := h + rest;
    assert s[..|h|] == h && s[|h|..] == rest;
    HolderLengthExact(s, |h|);
  }

  /** `replaceFirst` searches the whole buffer, words already put in included:
      in the format `{a}{b}`, if `{a}` draws a word that is the token `{b}`,
      the word drawn for `{b}` replaces that word, and the format's own `{b}`
      is left in the result. */
  lemma WordHoldingHolderIsReplaced(a: Bytes, b: Bytes, x: Bytes)
    requires IsHolder(a) && IsHolder(b)
    ensures Holders(a + b) == [a, b]
    ensures Fill(a + b, [a, b], [b, x]) == x + b
  {
    HoldersOfTwo(a, b);
    FillTwo(a + b, a, b, b, x);
    ReplaceLeading(a, b, b);
    ReplaceLeading(b, b, x);
  }

  /** The holders of two holder tokens side by side. */
  lemma HoldersOfTwo(a: Bytes, b: Bytes)
    requires IsHolder(a) && IsHolder(b)
    ensures Holders(a + b) == [a, b]
  {
    HoldersOfLeadingHolder(a, b);
    HoldersOfLeadingHolder(b, []);
    assert b + [] == b;
  }

  /** A needle at the front of the haystack is its first occurrence. */
  lemma ReplaceLeading(h: Bytes, rest: Bytes, w: Bytes)
    ensures ReplaceFirst(h, h + rest, w) == w + rest
  {
    var hay := h + rest;
    assert hay[0..|h|] == h;
    assert FirstAt(h, hay, 0);
    assert hay[..0] == [] && hay[|h|..] == rest;
  }

  /** `Fill` with two holders, unfolded. */
  lemma FillTwo(f: Bytes, h1: Bytes, h2: Bytes, w1: Bytes, w2: Bytes)
    ensures Fill(f, [h1, h2], [w1, w2]) == Replace(Replace(f, h1, w1), h2, w2)
  {
    var hs := [h1, h2];
    FillStep(f, hs, [], w1);
    FillStep(f, hs, [w1], w2);
    assert hs[..0] == [] && hs[..2] == hs && [] + [w1] == [w1] && [w1] + [w2] == [w1, w2];
  }
}

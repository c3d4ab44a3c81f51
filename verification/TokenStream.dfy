/** tok_encode and tok_decode of c/tok.h: added tokens are atomic, the text between them is cut into
    pieces and merged, and decoding undoes it all. */
module TokenStream {
  import opened Bits
  import opened ByteText
  import opened Tokenizer
  import opened Pretok

  // ---- what encoding is ----

  function PiecesIds(k: Tok, pieces: seq<Bytes>): seq<int> {
    if pieces == [] then [] else PieceIds(k, pieces[0]) + PiecesIds(k, pieces[1..])
  }

  function ChunkIds(k: Tok, u: Classes, t: Bytes): seq<int> {
    PiecesIds(k, PiecesFrom(u, t, 0))
  }

  predicate MatchesAt(k: Tok, text: Bytes, j: nat, x: nat)
    requires x < |k.sp| && j <= |text|
  {
    var s := k.sp[x].str;
    |s| > 0 && j + |s| <= |text| && text[j..j + |s|] == s
  }

  // The first added token from the x-th on that stands at j, or |k.sp|.
  function FirstMatch(k: Tok, text: Bytes, j: nat, x: nat): (m: nat)
    requires x <= |k.sp| && j <= |text|
    ensures x <= m <= |k.sp| && (m < |k.sp| ==> MatchesAt(k, text, j, m))
    ensures forall y :: x <= y < m ==> !MatchesAt(k, text, j, y)
    decreases |k.sp| - x
  {
    if x == |k.sp| || MatchesAt(k, text, j, x) then x else FirstMatch(k, text, j, x + 1)
  }

  // The first position from j on where an added token stands, or |text|.
  function NextHit(k: Tok, text: Bytes, j: nat): (h: nat)
    requires j <= |text|
    ensures j <= h <= |text| && (h < |text| ==> FirstMatch(k, text, h, 0) < |k.sp|)
    ensures forall y :: j <= y < h ==> FirstMatch(k, text, y, 0) == |k.sp|
    decreases |text| - j
  {
    if j == |text| || FirstMatch(k, text, j, 0) < |k.sp| then j else NextHit(k, text, j + 1)
  }

  function Encoded(k: Tok, u: Classes, text: Bytes, i: nat): seq<int>
    requires i <= |text|
    decreases |text| - i
  {
    if i == |text| then [] else
      var h := NextHit(k, text, i);
      ChunkIds(k, u, text[i..h]) +
      if h == |text| then [] else
        var s := k.sp[FirstMatch(k, text, h, 0)];
        [s.id] + Encoded(k, u, text, h + |s.str|)
  }

  // ---- the round trip ----

  lemma {:induction false} PiecesRoundTrip(k: Tok, pieces: seq<Bytes>)
    requires Usable(k) && forall x :: 0 <= x < |pieces| ==> pieces[x] != []
    ensures |k.added| == |k.id2str| && Decoded(k, PiecesIds(k, pieces)) == Concat(pieces)
    ensures |PiecesIds(k, pieces)| <= |Concat(pieces)|
  {
    hide Usable, PieceIds;
    Shaped(k);
    if pieces != [] {
      PieceRoundTrip(k, pieces[0]);
      PiecesRoundTrip(k, pieces[1..]);
      DecodedAppend(k, PieceIds(k, pieces[0]), PiecesIds(k, pieces[1..]));
    }
  }

  lemma ChunkRoundTrip(k: Tok, u: Classes, t: Bytes)
    requires Usable(k)
    ensures |k.added| == |k.id2str| && Decoded(k, ChunkIds(k, u, t)) == t && |ChunkIds(k, u, t)| <= |t|
  {
    hide Usable, PiecesFrom, Points;
    PiecesPartition(u, t, 0);
    PiecesRoundTrip(k, PiecesFrom(u, t, 0));
    assert t[0..] == t;
  }

  lemma SpecialBack(k: Tok, m: nat)
    requires Usable(k) && m < |k.sp|
    ensures |k.added| == |k.id2str| && Decoded(k, [k.sp[m].id]) == k.sp[m].str
  {
    assert NamesSpecial(k, m);
    DecodedSingle(k, k.sp[m].id);
  }

  // Decoding the encoding of any text gives the text back, and there are at most as many ids as bytes.
  lemma {:induction false} EncodeRoundTrip(k: Tok, u: Classes, text: Bytes, i: nat)
    requires Usable(k) && i <= |text|
    ensures |k.added| == |k.id2str| && Decoded(k, Encoded(k, u, text, i)) == text[i..]
    ensures |Encoded(k, u, text, i)| <= |text| - i
    decreases |text| - i
  {
    hide Usable, ChunkIds, DecodeOne, Decoded, NextHit, FirstMatch;
    Shaped(k);
    if i < |text| {
      var h := NextHit(k, text, i);
      var chunk := ChunkIds(k, u, text[i..h]);
      ChunkRoundTrip(k, u, text[i..h]);
      SplitAt(text, i, h);
      if h < |text| {
        var m := FirstMatch(k, text, h, 0);
        var id, next := k.sp[m].id, h + |k.sp[m].str|;
        EncodeRoundTrip(k, u, text, next);
        SpecialBack(k, m);
        var rest := Encoded(k, u, text, next);
        DecodedAppend(k, [id], rest);
        DecodedAppend(k, chunk, [id] + rest);
        SplitAt(text, h, next);
      } else {
        assert chunk + [] == chunk;
      }
    } else {
      DecodedNothing(k);
    }
  }

  lemma SplitAt(text: Bytes, i: nat, j: nat)
    requires i <= j <= |text|
    ensures text[i..] == text[i..j] + text[j..]
  {
  }

  lemma DecodedNothing(k: Tok)
    requires |k.added| == |k.id2str|
    ensures Decoded(k, []) == []
  {
  }

  // ---- added tokens are atomic ----

  // The x-th added token is not empty and text begins with it.
  ghost predicate Begins(k: Tok, text: Bytes, x: nat) {
    x < |k.sp| && k.sp[x].str != [] && k.sp[x].str <= text
  }

  // It is the first in the list that text begins with.
  ghost predicate FirstOf(k: Tok, text: Bytes, x: nat) {
    Begins(k, text, x) && forall y: nat :: y < x ==> !Begins(k, text, y)
  }

  // No added token stands at any of the first n positions of text.
  ghost predicate Plain(k: Tok, text: Bytes, n: nat) {
    forall j: nat, x: nat :: j < n && j <= |text| ==> !Begins(k, text[j..], x)
  }

  lemma MatchIsBegin(k: Tok, text: Bytes, j: nat, x: nat)
    requires x < |k.sp| && j <= |text|
    ensures MatchesAt(k, text, j, x) <==> Begins(k, text[j..], x)
  {
    var s := k.sp[x].str;
    if j + |s| <= |text| {
      assert text[j..][..|s|] == text[j..j + |s|];
    }
  }

  lemma FirstMatchIs(k: Tok, text: Bytes, j: nat)
    requires j <= |text|
    ensures var m := FirstMatch(k, text, j, 0);
            if m < |k.sp| then FirstOf(k, text[j..], m) else forall x: nat :: !Begins(k, text[j..], x)
  {
    hide MatchesAt, Begins;
    var m := FirstMatch(k, text, j, 0);
    forall x: nat | x < |k.sp|
      ensures MatchesAt(k, text, j, x) <==> Begins(k, text[j..], x)
    {
      MatchIsBegin(k, text, j, x);
    }
    NoneBeyond(k, text[j..]);
  }

  lemma NoneBeyond(k: Tok, text: Bytes)
    ensures forall x: nat :: x >= |k.sp| ==> !Begins(k, text, x)
  {
  }

  lemma FirstIsOne(k: Tok, text: Bytes, x: nat, y: nat)
    requires FirstOf(k, text, x) && FirstOf(k, text, y)
    ensures x == y
  {
    hide Begins;
  }

  // Encoding from a position is encoding what follows it.
  lemma {:induction false} EncodedFrom(k: Tok, u: Classes, text: Bytes, i: nat)
    requires i <= |text|
    ensures Encoded(k, u, text, i) == Encoded(k, u, text[i..], 0)
    decreases |text| - i
  {
    hide ChunkIds;
    EncodedShift(k, u, text[..i], text[i..], 0);
    assert text[..i] + text[i..] == text;
  }

  lemma {:induction false} EncodedShift(k: Tok, u: Classes, a: Bytes, b: Bytes, i: nat)
    requires i <= |b|
    ensures Encoded(k, u, a + b, |a| + i) == Encoded(k, u, b, i)
    decreases |b| - i
  {
    hide ChunkIds, NextHit, FirstMatch;
    if i < |b| {
      HitShift(k, a, b, i);
      var h := NextHit(k, b, i);
      assert (a + b)[|a| + i..|a| + h] == b[i..h];
      if h < |b| {
        FirstShift(k, a, b, h, 0);
        EncodedShift(k, u, a, b, h + |k.sp[FirstMatch(k, b, h, 0)].str|);
      }
    }
  }

  lemma {:induction false} FirstShift(k: Tok, a: Bytes, b: Bytes, j: nat, x: nat)
    requires j <= |b| && x <= |k.sp|
    ensures FirstMatch(k, a + b, |a| + j, x) == FirstMatch(k, b, j, x)
    decreases |k.sp| - x
  {
    hide MatchesAt;
    if x < |k.sp| {
      MatchShift(k, a, b, j, x);
      FirstShift(k, a, b, j, x + 1);
    }
  }

  lemma MatchShift(k: Tok, a: Bytes, b: Bytes, j: nat, x: nat)
    requires j <= |b| && x < |k.sp|
    ensures MatchesAt(k, a + b, |a| + j, x) == MatchesAt(k, b, j, x)
  {
    MatchIsBegin(k, a + b, |a| + j, x);
    MatchIsBegin(k, b, j, x);
    assert (a + b)[|a| + j..] == b[j..];
  }

  lemma {:induction false} HitShift(k: Tok, a: Bytes, b: Bytes, j: nat)
    requires j <= |b|
    ensures NextHit(k, a + b, |a| + j) == |a| + NextHit(k, b, j)
    decreases |b| - j
  {
    hide FirstMatch;
    FirstShift(k, a, b, j, 0);
    if j < |b| {
      HitShift(k, a, b, j + 1);
    }
  }

  // A text that begins with an added token is encoded as that token, the first such in the list,
  // and then the rest.
  lemma SpecialFirst(k: Tok, u: Classes, text: Bytes, x: nat)
    requires FirstOf(k, text, x)
    ensures Encoded(k, u, text, 0) == [k.sp[x].id] + Encoded(k, u, text[|k.sp[x].str|..], 0)
  {
    hide ChunkIds, FirstMatch;
    assert text[0..] == text;
    FirstMatchIs(k, text, 0);
    if FirstMatch(k, text, 0, 0) < |k.sp| {
      FirstIsOne(k, text, x, FirstMatch(k, text, 0, 0));
    }
    NoText(k, u, text);
    EncodedFrom(k, u, text, |k.sp[x].str|);
  }

  lemma NoText(k: Tok, u: Classes, text: Bytes)
    ensures ChunkIds(k, u, text[0..0]) == []
  {
    assert text[0..0] == [] && Points([]) == [];
  }

  // Text in which no added token stands, up to one or to the end, is encoded as plain text, and
  // then the rest.
  lemma PlainFirst(k: Tok, u: Classes, text: Bytes, n: nat)
    requires n <= |text| && Plain(k, text, n) && (n < |text| ==> exists x :: Begins(k, text[n..], x))
    ensures Encoded(k, u, text, 0) == ChunkIds(k, u, text[..n]) + Encoded(k, u, text[n..], 0)
  {
    hide ChunkIds, FirstMatch, Begins;
    HitAfter(k, text, 0, n);
    EncodedFrom(k, u, text, n);
    assert text[0..n] == text[..n];
    if n == |text| {
      assert ChunkIds(k, u, text[..n]) + [] == ChunkIds(k, u, text[..n]);
      NoText(k, u, text);
      assert text[0..0] == [] == text[..0];
    } else {
      HitHere(k, text, n);
      NoText(k, u, text[n..]);
      FromHit(k, u, text, n);
    }
  }

  lemma {:induction false} HitAfter(k: Tok, text: Bytes, j: nat, n: nat)
    requires j <= n <= |text| && Plain(k, text, n) && (n < |text| ==> exists x :: Begins(k, text[n..], x))
    ensures NextHit(k, text, j) == n
    decreases n - j
  {
    hide FirstMatch, Begins;
    if j < |text| {
      FirstMatchIs(k, text, j);
      if j < n {
        HitAfter(k, text, j + 1, n);
      }
    }
  }

  lemma HitHere(k: Tok, text: Bytes, n: nat)
    requires n < |text| && exists x :: Begins(k, text[n..], x)
    ensures NextHit(k, text, n) == n && FirstMatch(k, text, n, 0) < |k.sp|
  {
    hide FirstMatch, Begins;
    FirstMatchIs(k, text, n);
  }

  // What is encoded from a position where an added token stands is that token and the rest.
  lemma FromHit(k: Tok, u: Classes, text: Bytes, n: nat)
    requires n < |text| && NextHit(k, text, n) == n
    ensures var s := k.sp[FirstMatch(k, text, n, 0)];
            Encoded(k, u, text, n) == [s.id] + Encoded(k, u, text, n + |s.str|)
  {
    hide ChunkIds, FirstMatch;
    assert text[n..n] == [] == text[0..0];
    NoText(k, u, text);
  }

  // ---- output with a limit ----

  // The first max elements.
  function Take<T>(x: seq<T>, max: nat): (r: seq<T>)
    ensures r <= x && |r| == if |x| <= max then |x| else max
  {
    if |x| <= max then x else x[..max]
  }

  lemma TakeAppend<T>(x: seq<T>, y: seq<T>, max: nat)
    ensures Take(Take(x, max) + y, max) == Take(x + y, max)
  {
  }
}

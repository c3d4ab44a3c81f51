/** The byte-level BPE tokenizer of c/tok.h: pieces, merges, encoding around added tokens, and
    decoding. Which codepoints are letters, numbers and spaces is a parameter. */
module Tokenizer {
  import opened Bits
  import opened ByteText
  import opened Wrappers

  // An added token: its text and id.
  datatype Special = Special(str: Bytes, id: int)

  // vocab: byte-level string to id; merges: "left NUL right" to rank; id2str and added: id to
  // string, and whether it is an added token.
  datatype Tok = Tok(vocab: map<Bytes, nat>, merges: map<Bytes, nat>, id2str: seq<Option<Bytes>>, added: seq<bool>,
                     sp: seq<Special>)

  // What a usable tokenizer file guarantees: a symbol for every byte, a token for every merge
  // result, and ids that lead back to their strings, those of added tokens apart.
  ghost predicate Usable(k: Tok) {
    && |k.added| == |k.id2str|
    && (forall b: byte :: Str([b]) in k.vocab)
    && (forall l: Bytes, r: Bytes :: MergeKey(l, r) in k.merges ==> Str(l) + Str(r) in k.vocab)
    && (forall s :: s in k.vocab ==> NamesVocab(k, s))
    && (forall i :: 0 <= i < |k.sp| ==> NamesSpecial(k, i))
  }

  ghost predicate NamesVocab(k: Tok, s: Bytes)
    requires s in k.vocab && |k.added| == |k.id2str|
  {
    k.vocab[s] < |k.id2str| && k.id2str[k.vocab[s]] == Some(s) && !k.added[k.vocab[s]]
  }

  ghost predicate NamesSpecial(k: Tok, i: nat)
    requires i < |k.sp| && |k.added| == |k.id2str|
  {
    && 0 <= k.sp[i].id < |k.id2str| && k.id2str[k.sp[i].id] == Some(k.sp[i].str) && k.added[k.sp[i].id]
  }

  // The key of a merge, from the raw bytes of its halves.
  function MergeKey(l: Bytes, r: Bytes): Bytes {
    Str(l) + [0] + Str(r)
  }

  // ---- byte pair encoding ----

  predicate CanMerge(k: Tok, syms: seq<Bytes>, i: nat)
    requires i + 1 < |syms|
  {
    MergeKey(syms[i], syms[i + 1]) in k.merges
  }

  function RankAt(k: Tok, syms: seq<Bytes>, i: nat): nat
    requires i + 1 < |syms| && CanMerge(k, syms, i)
  {
    k.merges[MergeKey(syms[i], syms[i + 1])]
  }

  // The leftmost pair of least rank among the first n pairs, or -1.
  function BestPair(k: Tok, syms: seq<Bytes>, n: nat): (b: int)
    requires n == 0 || n < |syms|
    ensures -1 <= b < n && (b >= 0 ==> CanMerge(k, syms, b))
  {
    if n == 0 then -1 else
      var b := BestPair(k, syms, n - 1);
      if CanMerge(k, syms, n - 1) && (b < 0 || RankAt(k, syms, n - 1) < RankAt(k, syms, b)) then n - 1 else b
  }

  function Pairs(syms: seq<Bytes>): nat {
    if syms == [] then 0 else |syms| - 1
  }

  function Fused(syms: seq<Bytes>, i: nat): (r: seq<Bytes>)
    requires i + 1 < |syms|
    ensures |r| == |syms| - 1
  {
    syms[..i] + [syms[i] + syms[i + 1]] + syms[i + 2..]
  }

  // It is -1 only if no pair can be merged; otherwise its rank is least, and lower than that of
  // every pair to its left.
  lemma {:induction false} BestPairIs(k: Tok, syms: seq<Bytes>, n: nat, i: nat)
    requires n < |syms| && i < n && CanMerge(k, syms, i)
    ensures var b := BestPair(k, syms, n);
            && b >= 0 && RankAt(k, syms, b) <= RankAt(k, syms, i)
            && (i < b ==> RankAt(k, syms, b) < RankAt(k, syms, i))
    decreases n
  {
    hide MergeKey;
    if i < n - 1 {
      BestPairIs(k, syms, n - 1, i);
    }
  }

  // Merges the best pair until none is left.
  function Bpe(k: Tok, syms: seq<Bytes>): seq<Bytes>
    decreases |syms|
  {
    var b := BestPair(k, syms, Pairs(syms));
    if b < 0 then syms else Bpe(k, Fused(syms, b))
  }

  // Merging ends with no pair left to merge.
  lemma {:induction false} BpeIsFinal(k: Tok, syms: seq<Bytes>, i: nat)
    requires i < Pairs(Bpe(k, syms))
    ensures !CanMerge(k, Bpe(k, syms), i)
    decreases |syms|
  {
    hide MergeKey, Fused;
    var b := BestPair(k, syms, Pairs(syms));
    if b >= 0 {
      BpeIsFinal(k, Fused(syms, b), i);
    } else if CanMerge(k, syms, i) {
      BestPairIs(k, syms, Pairs(syms), i);
    }
  }

  // The symbols always partition the piece.
  lemma FusedConcat(syms: seq<Bytes>, i: nat)
    requires i + 1 < |syms|
    ensures Concat(Fused(syms, i)) == Concat(syms)
  {
    hide Concat;
    SplitPair(syms, i);
    FuseInside(syms[..i], syms[i], syms[i + 1], syms[i + 2..]);
  }

  lemma SplitPair(syms: seq<Bytes>, i: nat)
    requires i + 1 < |syms|
    ensures syms == syms[..i] + [syms[i], syms[i + 1]] + syms[i + 2..]
  {
  }

  lemma FuseInside(a: seq<Bytes>, x: Bytes, y: Bytes, c: seq<Bytes>)
    ensures Concat(a + [x + y] + c) == Concat(a + [x, y] + c)
  {
    hide Concat;
    ConcatThree(a, [x, y], c);
    ConcatThree(a, [x + y], c);
    ConcatTwo(x, y);
  }

  lemma ConcatThree(a: seq<Bytes>, b: seq<Bytes>, c: seq<Bytes>)
    ensures Concat(a + b + c) == Concat(a) + Concat(b) + Concat(c)
  {
    hide Concat;
    ConcatAppend(a + b, c);
    ConcatAppend(a, b);
  }

  lemma ConcatTwo(a: Bytes, b: Bytes)
    ensures Concat([a, b]) == Concat([a + b]) == a + b
  {
    assert [a, b][1..] == [b] && [b][1..] == [] && [a + b][1..] == [];
    assert Concat([b]) == b + [];
  }

  ghost predicate AllTokens(k: Tok, syms: seq<Bytes>) {
    forall i :: 0 <= i < |syms| ==> syms[i] != [] && Str(syms[i]) in k.vocab
  }

  lemma {:induction false} BpeKeeps(k: Tok, syms: seq<Bytes>)
    requires Usable(k) && AllTokens(k, syms)
    ensures Concat(Bpe(k, syms)) == Concat(syms) && AllTokens(k, Bpe(k, syms)) && |Bpe(k, syms)| <= |syms|
    decreases |syms|
  {
    hide Str, Concat, MergeKey;
    var b := BestPair(k, syms, Pairs(syms));
    if b >= 0 {
      FusedConcat(syms, b);
      assert Str(syms[b]) + Str(syms[b + 1]) in k.vocab;
      StrAppend(syms[b], syms[b + 1]);
      FusedTokens(k, syms, b);
      BpeKeeps(k, Fused(syms, b));
    }
  }

  lemma FusedTokens(k: Tok, syms: seq<Bytes>, b: nat)
    requires b + 1 < |syms| && AllTokens(k, syms) && Str(syms[b] + syms[b + 1]) in k.vocab
    ensures AllTokens(k, Fused(syms, b))
  {
    hide Str;
    var f := Fused(syms, b);
    forall i | 0 <= i < |f|
      ensures f[i] != [] && Str(f[i]) in k.vocab
    {
      assert f[i] == if i < b then syms[i] else if i == b then syms[b] + syms[b + 1] else syms[i + 1];
    }
  }

  // One symbol a byte.
  function Singles(bs: Bytes): (syms: seq<Bytes>)
    ensures |syms| == |bs| && forall i :: 0 <= i < |bs| ==> syms[i] == [bs[i]]
  {
    seq(|bs|, i requires 0 <= i < |bs| => [bs[i]])
  }

  lemma {:induction false} SinglesConcat(bs: Bytes)
    ensures Concat(Singles(bs)) == bs
  {
    if bs != [] {
      SinglesConcat(bs[1..]);
      assert Singles(bs)[1..] == Singles(bs[1..]);
      assert bs == [bs[0]] + bs[1..];
    }
  }

  // The ids of symbols; a symbol without one is dropped.
  function Ids(k: Tok, syms: seq<Bytes>): (ids: seq<int>)
    ensures |ids| <= |syms|
  {
    if syms == [] then [] else
      (if Str(syms[0]) in k.vocab then [k.vocab[Str(syms[0])]] else []) + Ids(k, syms[1..])
  }

  // The ids of a piece: its own if it is a token, else those of its merged symbols.
  function PieceIds(k: Tok, piece: Bytes): seq<int> {
    if Str(piece) in k.vocab then [k.vocab[Str(piece)]] else Ids(k, Bpe(k, Singles(piece)))
  }

  // Every symbol with a token has its id.
  lemma {:induction false} IdsAre(k: Tok, syms: seq<Bytes>)
    requires forall i :: 0 <= i < |syms| ==> Str(syms[i]) in k.vocab
    ensures |Ids(k, syms)| == |syms| && forall i :: 0 <= i < |syms| ==> Ids(k, syms)[i] == k.vocab[Str(syms[i])]
  {
    hide Str;
    if syms != [] {
      forall i | 0 <= i < |syms[1..]|
        ensures Str(syms[1..][i]) in k.vocab
      {
        assert syms[1..][i] == syms[i + 1];
      }
      IdsAre(k, syms[1..]);
    }
  }

  // The rank of the pair at i, if it can be merged.
  ghost predicate RankIs(k: Tok, syms: seq<Bytes>, i: nat, rank: nat) {
    i + 1 < |syms| && var key := Str(syms[i]) + [0] + Str(syms[i + 1]); key in k.merges && k.merges[key] == rank
  }

  // next is syms with one pair joined: one of least rank, and the leftmost of those.
  ghost predicate Merges(k: Tok, syms: seq<Bytes>, next: seq<Bytes>) {
    exists i: nat, rank: nat ::
      && RankIs(k, syms, i, rank) && next == syms[..i] + [syms[i] + syms[i + 1]] + syms[i + 2..]
      && forall j: nat, other: nat :: RankIs(k, syms, j, other) ==> rank <= other && (j < i ==> rank < other)
  }

  // The steps from the single bytes of a piece to its symbols.
  ghost predicate MergeRun(k: Tok, syms: seq<Bytes>, chain: seq<seq<Bytes>>) {
    && chain != [] && chain[0] == syms
    && (forall i :: 0 <= i < |chain| - 1 ==> Merges(k, chain[i], chain[i + 1]))
    && NoMerge(k, chain[|chain| - 1])
  }

  ghost predicate NoMerge(k: Tok, syms: seq<Bytes>) {
    forall j: nat, rank: nat :: !RankIs(k, syms, j, rank)
  }

  lemma RankIsRank(k: Tok, syms: seq<Bytes>, i: nat)
    ensures (i + 1 < |syms| && CanMerge(k, syms, i)) <==> exists rank :: RankIs(k, syms, i, rank)
    ensures i + 1 < |syms| && CanMerge(k, syms, i) ==> RankIs(k, syms, i, RankAt(k, syms, i))
  {
    hide Str;
    if i + 1 < |syms| {
      assert MergeKey(syms[i], syms[i + 1]) == Str(syms[i]) + [0] + Str(syms[i + 1]);
      if CanMerge(k, syms, i) {
        assert RankIs(k, syms, i, RankAt(k, syms, i));
      }
    }
  }

  lemma BestMerges(k: Tok, syms: seq<Bytes>, b: nat)
    requires b == BestPair(k, syms, Pairs(syms)) && b + 1 < |syms|
    ensures Merges(k, syms, Fused(syms, b))
  {
    hide Str, CanMerge, RankAt, RankIs, Fused;
    RankIsRank(k, syms, b);
    forall j: nat, other: nat | RankIs(k, syms, j, other)
      ensures RankAt(k, syms, b) <= other && (j < b ==> RankAt(k, syms, b) < other)
    {
      RankIsRank(k, syms, j);
      BestPairIs(k, syms, Pairs(syms), j);
      OneRank(k, syms, j, other, RankAt(k, syms, j));
    }
    FusedIs(syms, b);
  }

  lemma FusedIs(syms: seq<Bytes>, i: nat)
    requires i + 1 < |syms|
    ensures Fused(syms, i) == syms[..i] + [syms[i] + syms[i + 1]] + syms[i + 2..]
  {
  }

  lemma OneRank(k: Tok, syms: seq<Bytes>, i: nat, rank: nat, other: nat)
    requires RankIs(k, syms, i, rank) && RankIs(k, syms, i, other)
    ensures rank == other
  {
  }

  // The merged symbols are what merging pairs one at a time, least rank and leftmost first, ends in.
  lemma {:induction false} BpeRuns(k: Tok, syms: seq<Bytes>) returns (chain: seq<seq<Bytes>>)
    ensures MergeRun(k, syms, chain) && chain[|chain| - 1] == Bpe(k, syms)
    decreases |syms|
  {
    hide Merges, RankIs, Fused;
    var b := BestPair(k, syms, Pairs(syms));
    if b < 0 {
      chain := [syms];
      forall j: nat, rank: nat
        ensures !RankIs(k, syms, j, rank)
      {
        RankIsRank(k, syms, j);
        if RankIs(k, syms, j, rank) {
          BestPairIs(k, syms, Pairs(syms), j);
        }
      }
    } else {
      BestMerges(k, syms, b);
      var more := BpeRuns(k, Fused(syms, b));
      chain := [syms] + more;
    }
  }

  // A piece that is a token has that token's id; any other has the ids of its merged bytes.
  lemma PieceIs(k: Tok, piece: Bytes) returns (chain: seq<seq<Bytes>>)
    ensures Str(piece) in k.vocab ==> PieceIds(k, piece) == [k.vocab[Str(piece)]]
    ensures MergeRun(k, Singles(piece), chain)
    ensures Str(piece) !in k.vocab ==> PieceIds(k, piece) == Ids(k, chain[|chain| - 1])
  {
    hide Bpe, MergeRun;
    chain := BpeRuns(k, Singles(piece));
  }

  // ---- decoding ----

  function DecodeOne(k: Tok, id: int): Bytes
    requires |k.added| == |k.id2str|
  {
    if id < 0 || id >= |k.id2str| || k.id2str[id].None? then []
    else if k.added[id] then k.id2str[id].value
    else Raw(k.id2str[id].value)
  }

  function Decoded(k: Tok, ids: seq<int>): Bytes
    requires |k.added| == |k.id2str|
  {
    if ids == [] then [] else DecodeOne(k, ids[0]) + Decoded(k, ids[1..])
  }

  lemma {:induction false} DecodedAppend(k: Tok, a: seq<int>, b: seq<int>)
    requires |k.added| == |k.id2str|
    ensures Decoded(k, a + b) == Decoded(k, a) + Decoded(k, b)
  {
    hide DecodeOne;
    if a == [] {
      assert a + b == b;
    } else {
      DecodedAppend(k, a[1..], b);
      assert (a + b)[1..] == a[1..] + b;
    }
  }

  lemma DecodedSingle(k: Tok, id: int)
    requires |k.added| == |k.id2str|
    ensures Decoded(k, [id]) == DecodeOne(k, id)
  {
    assert [id][1..] == [];
  }

  lemma TokenBack(k: Tok, bs: Bytes)
    requires Usable(k) && Str(bs) in k.vocab
    ensures DecodeOne(k, k.vocab[Str(bs)]) == bs
  {
    assert NamesVocab(k, Str(bs));
    RawStr(bs);
  }

  lemma {:induction false} IdsBack(k: Tok, syms: seq<Bytes>)
    requires Usable(k) && AllTokens(k, syms)
    ensures Decoded(k, Ids(k, syms)) == Concat(syms)
  {
    hide Usable, Str, DecodeOne;
    if syms != [] {
      var id := k.vocab[Str(syms[0])];
      TokenBack(k, syms[0]);
      IdsBack(k, syms[1..]);
      Shaped(k);
      DecodedAppend(k, [id], Ids(k, syms[1..]));
      DecodedSingle(k, id);
    }
  }

  lemma Shaped(k: Tok)
    requires Usable(k)
    ensures |k.added| == |k.id2str|
  {
  }

  // A piece is decoded back from its ids, of which there are at most as many as bytes.
  lemma PieceRoundTrip(k: Tok, piece: Bytes)
    requires Usable(k) && piece != []
    ensures |k.added| == |k.id2str| && Decoded(k, PieceIds(k, piece)) == piece && |PieceIds(k, piece)| <= |piece|
  {
    hide Bpe, DecodeOne, Decoded, Ids, Concat;
    if Str(piece) in k.vocab {
      TokenBack(k, piece);
      DecodedSingle(k, k.vocab[Str(piece)]);
    } else {
      var syms := Singles(piece);
      assert AllTokens(k, syms);
      BpeKeeps(k, syms);
      SinglesConcat(piece);
      IdsBack(k, Bpe(k, syms));
    }
  }
}

/** The serve loop of c/glm.c: conversation slots that keep their KV rows between frames. The reference
    for every turn is a decode from scratch: the reply depends on the visible history alone. */
module ServeSession {
  import opened Speculation

  // ctx: tokens a slot can hold; margin: g_draft; limit: NGEN; chunk: tokens per prefill forward;
  // greedy: whether frames without their own temperature decode greedily.
  datatype Config<!R, !L> = Config(net: Net<R, L>, stops: set<int>, ctx: nat, margin: nat, limit: nat, chunk: int, greedy: bool)

  predicate GoodConfig<R, L>(c: Config<R, L>) {
    c.ctx > 8 + c.margin
  }

  // tok_encode keeps at most max tokens.
  function Cut(ts: seq<int>, max: int): (r: seq<int>)
    ensures r <= ts && |r| == if max <= 0 then 0 else if |ts| <= max then |ts| else max
  {
    if max <= 0 then [] else if |ts| <= max then ts else ts[..max]
  }

  // How many tokens a turn may emit after a history of n tokens.
  function Allowance<R, L>(c: Config<R, L>, n: nat, wanted: nat): (a: nat)
    ensures a > 0 ==> n + a + c.margin + 2 <= c.ctx
  {
    if n + wanted + c.margin + 2 < c.ctx then wanted
    else if c.ctx - n - c.margin - 2 > 0 then c.ctx - n - c.margin - 2 else 0
  }

  // What a client has seen of a slot: cached tokens, the emitted one not yet cached, and whether
  // the next interactive turn opens the conversation.
  datatype View = View(cached: seq<int>, tail: seq<int>, first: bool)

  const NOTHING := View([], [], true)

  function Shown(v: View): seq<int> {
    v.cached + v.tail
  }

  // A reply after a history of n tokens may have m: as many as wanted, or as many as still fit with
  // the margin and two more.
  ghost predicate Room<R, L>(c: Config<R, L>, n: nat, wanted: nat, m: nat) {
    && m <= wanted && (m > 0 ==> n + m + c.margin + 2 <= c.ctx)
    && (m == wanted || n + m + c.margin + 2 >= c.ctx)
  }

  // The reply is a decoding of up to m tokens after h, greedy or as the sampler says.
  ghost predicate Replies<R, L>(c: Config<R, L>, greedy: bool, h: seq<int>, m: nat, src: Source, reply: seq<int>) {
    && |reply| <= m
    && (greedy ==> reply == Greedy(c.net, c.stops, h, m))
    && (!greedy ==> exists ts :: SampledRun(src, c.stops, m, |h|, c.ctx, reply, ts))
  }

  // The turn decodes wanted tokens after history h, as if from scratch, or as many as fit.
  ghost predicate Decodes<R, L>(c: Config<R, L>, greedy: bool, h: seq<int>, wanted: nat, src: Source, reply: seq<int>, after: View) {
    && Shown(after) == h + reply && after.cached != [] && !after.first
    && exists m :: Room(c, |h|, wanted, m) && Replies(c, greedy, h, m, src, reply)
  }

  // How long a reply is: all that is wanted when it fits, else up to the last position but two and
  // the margin, unless decoding ends before a stop token.
  lemma ReplyLength<R, L>(c: Config<R, L>, greedy: bool, h: seq<int>, wanted: nat, src: Source, reply: seq<int>, after: View)
    requires Decodes(c, greedy, h, wanted, src, reply, after)
    ensures |h| + wanted + c.margin + 2 <= c.ctx ==> Replies(c, greedy, h, wanted, src, reply)
    ensures |h| + wanted + c.margin + 2 > c.ctx && |h| + c.margin + 2 <= c.ctx ==>
              Replies(c, greedy, h, c.ctx - c.margin - 2 - |h|, src, reply)
    ensures |h| + c.margin + 2 >= c.ctx ==> reply == []
    ensures greedy && |reply| < wanted && |h| + |reply| + c.margin + 2 < c.ctx ==>
              c.net.argmax(Logits(c.net, h + reply)) in c.stops
    ensures !greedy && |reply| < wanted && |h| + |reply| + c.margin + 2 < c.ctx ==>
              exists ts :: StopsSampling(src, c.stops, ts)
  {
    hide Replies, Greedy, Logits, SampledRun;
    var m :| Room(c, |h|, wanted, m) && Replies(c, greedy, h, m, src, reply);
    NoReply(c, greedy, h, m, src, reply);
    if |reply| < wanted && |h| + |reply| + c.margin + 2 < c.ctx {
      ShortReply(c, greedy, h, m, src, reply);
    }
  }

  // The rounds end with an accepted draft or a pick that is a stop token.
  ghost predicate StopsSampling(src: Source, stops: set<int>, ts: seq<Verdict>) {
    || src.pick(|ts|, Ban(src, ts, |ts|)) in stops
    || (ts != [] && var r := |ts| - 1; ts[r].end.Stopped? && ts[r].k < |src.draft(r)| && src.accept(r, ts[r].k)
                                        && src.draft(r)[ts[r].k] in stops)
  }

  lemma NoReply<R, L>(c: Config<R, L>, greedy: bool, h: seq<int>, m: nat, src: Source, reply: seq<int>)
    requires Replies(c, greedy, h, m, src, reply)
    ensures |reply| <= m && (m == 0 ==> reply == [])
  {
  }

  lemma ShortReply<R, L>(c: Config<R, L>, greedy: bool, h: seq<int>, m: nat, src: Source, reply: seq<int>)
    requires Replies(c, greedy, h, m, src, reply) && |reply| < m
    ensures greedy ==> c.net.argmax(Logits(c.net, h + reply)) in c.stops
    ensures !greedy ==> exists ts :: StopsSampling(src, c.stops, ts)
  {
    hide Logits, Greedy;
    if greedy {
      GreedyStops(c.net, c.stops, h, m);
    } else {
      var ts: seq<Verdict> :| SampledRun(src, c.stops, m, |h|, c.ctx, reply, ts);
      if ts != [] && ts[|ts| - 1].end.Stopped? {
        assert Sampled(src, c.stops, m, |h|, c.ctx, ts, |ts| - 1);
      }
      assert StopsSampling(src, c.stops, ts);
    }
  }

  // The tokens of an interactive turn and the history they extend. enc gives the turn's tokens,
  // with or without the opening of a first turn.
  datatype Turn = Turn(base: seq<int>, tokens: seq<int>, fits: bool)

  // A turn fits if the whole of it leaves 8 positions and the margin free.
  function TurnOf<R, L>(c: Config<R, L>, cached: seq<int>, first: bool, enc: bool -> seq<int>): (t: Turn)
    ensures |cached| + |enc(first)| + 8 + c.margin < c.ctx ==> t == Turn(cached, enc(first), true)
    ensures |cached| + |enc(first)| + 8 + c.margin >= c.ctx ==>
              && t.base == [] && !t.fits && t.tokens <= enc(true)
              && (|t.tokens| == |enc(true)| || |t.tokens| == c.ctx - 8 - c.margin
                  || (t.tokens == [] && c.ctx <= 8 + c.margin))
  {
    var turn := Cut(enc(first), c.ctx - |cached|);
    if |cached| + |turn| + 8 + c.margin < c.ctx then Turn(cached, turn, true)
    else Turn([], Cut(enc(true), c.ctx - 8 - c.margin), false)
  }

  class Slot<R, L> {
    const c: Config<R, L>
    const hist: array<int>
    const kv: KVState<R>
    var len: nat
    var tail: bool
    var first: bool

    // Every cached row is the row of its own history, and there is room to forward a tail.
    ghost predicate Valid()
      reads this, hist, kv
    {
      && GoodConfig(c) && hist.Length == c.ctx == |kv.rows|
      && len + (if tail then 1 else 0) + c.margin + 2 <= c.ctx
      && Fresh(c.net, kv.rows, hist[..len]) && (first ==> len == 0)
    }

    ghost function Seen(): View
      requires Valid()
      reads this, hist, kv
    {
      View(hist[..len], if tail && len > 0 then [hist[len]] else [], first)
    }

    constructor (c: Config<R, L>, hist: array<int>, kv: KVState<R>)
      requires GoodConfig(c) && hist.Length == c.ctx == |kv.rows|
      ensures Valid() && this.c == c && this.hist == hist && this.kv == kv && Seen() == NOTHING
    {
      this.c, this.hist, this.kv := c, hist, kv;
      len, tail, first := 0, false, true;
    }

    // Chunked prefill of the k tokens at hist[len..]: the logits and the rows are those of one
    // monolithic forward.
    method Prefill(k: nat) returns (logit: L)
      requires Valid() && k > 0 && len + k + c.margin + 2 <= c.ctx
      modifies this`len, this`tail, this`first, kv
      ensures Valid() && len == old(len) + k && !tail && !first
      ensures logit == Logits(c.net, hist[..len])
    {
      hide Fresh, Logits;
      tail := false;
      first := false;
      var size := if c.chunk <= 0 || c.chunk > k then k else c.chunk;
      var n := if k < size then k else size;
      ghost var h := hist[..len];
      Chunk(hist[..], len, n);
      logit := Step(c.net, kv, hist[len..len + n], len, h);
      len := len + n;
      var done := n;
      while done < k
        invariant Valid() && len == old(len) + done && done <= k && !tail && !first
        invariant logit == Logits(c.net, hist[..len])
        decreases k - done
      {
        n := if k - done < size then k - done else size;
        Chunk(hist[..], len, n);
        logit := Step(c.net, kv, hist[len..len + n], len, hist[..len]);
        len := len + n;
        done := done + n;
      }
    }

    // Forwards the last cached token again, to get its logits back.
    method Redo() returns (logit: L)
      requires Valid() && len > 0
      modifies kv
      ensures Valid() && logit == Logits(c.net, hist[..len])
    {
      hide Fresh, Logits;
      FreshPrefix(c.net, kv.rows, hist[..len], len - 1);
      assert hist[..len][..len - 1] == hist[..len - 1];
      assert hist[..len - 1] + [hist[len - 1]] == hist[..len];
      logit := Step(c.net, kv, [hist[len - 1]], len - 1, hist[..len - 1]);
    }

    // Decodes up to cur tokens after the cached history.
    method Decode(cur: nat, greedy: bool, src: Source, logit: L) returns (reply: seq<int>)
      requires Valid() && !tail && len > 0 && logit == Logits(c.net, hist[..len])
      requires cur > 0 ==> len + cur + c.margin + 2 <= c.ctx
      modifies this`len, this`tail, hist, kv
      ensures Valid() && Shown(Seen()) == old(hist[..len]) + reply && |reply| <= cur
      ensures len > 0 && Replies(c, greedy, old(hist[..len]), cur, src, reply)
    {
      hide Fresh, Logits, Greedy, SampledRun;
      if cur == 0 {
        GreedyNone(c.net, c.stops, hist[..len]);
        SampledNone(src, c.stops, len, c.ctx);
        return [];
      }
      var len0 := len;
      assert hist[..][..len] == hist[..len] + [];
      var truncated;
      ghost var ts;
      reply, len, truncated, ts := SpecDecode(c.net, kv, hist, len0, cur, c.stops, greedy, src, logit);
      tail := |reply| > 0 && |reply| == len - len0 + 1;
      ghost var h := old(hist[..len]);
      if truncated {
        assert hist[..len] + [hist[len]] == hist[..len0 + |reply|];
      }
    }

    // The answering half of a turn, once k new tokens stand behind the cached ones.
    method Answer(k: nat, wanted: nat, greedy: bool, src: Source) returns (reply: seq<int>)
      requires Valid() && 0 < len + k && len + k + c.margin + 2 <= c.ctx
      modifies this`len, this`tail, this`first, hist, kv
      ensures Valid() && Decodes(c, greedy, old(hist[..len + k]), wanted, src, reply, Seen())
    {
      hide Fresh, Logits, Greedy, Replies;
      first := false;
      var cur := Allowance(c, len + k, wanted);
      assert Room(c, len + k, wanted, cur);
      var logit;
      if k > 0 {
        logit := Prefill(k);
      } else {
        logit := Redo();
        tail := false;
      }
      reply := Decode(cur, greedy, src, logit);
    }

    // The longest common prefix of the cached history and the prompt.
    method CommonPrefix(tmp: seq<int>) returns (prefix: nat)
      requires Valid()
      ensures prefix <= len && prefix <= |tmp| && hist[..prefix] == tmp[..prefix]
      ensures prefix < len && prefix < |tmp| ==> hist[prefix] != tmp[prefix]
    {
      prefix := 0;
      while prefix < len && prefix < |tmp| && hist[prefix] == tmp[prefix]
        invariant prefix <= len && prefix <= |tmp| && hist[..prefix] == tmp[..prefix]
      {
        assert hist[..prefix + 1] == hist[..prefix] + [hist[prefix]];
        prefix := prefix + 1;
      }
    }

    // A PROMPT frame: the whole conversation as tokens; the cached prefix it shares is reused.
    method Prompt(tokens: seq<int>, wanted: nat, greedy: bool, src: Source) returns (reply: seq<int>)
      requires Valid()
      modifies this, hist, kv
      ensures var p := Cut(tokens, c.ctx - 8 - c.margin);
              && Valid()
              && if p == [] then reply == [] && Seen() == View([], [], old(first))
                 else Decodes(c, greedy, p, if wanted > c.limit then c.limit else wanted, src, reply, Seen())
    {
      hide Fresh, Logits, Greedy, Cut, Decodes;
      var tmp := Cut(tokens, c.ctx - 8 - c.margin);
      var prefix := CommonPrefix(tmp);
      if prefix < len {
        FreshPrefix(c.net, kv.rows, hist[..len], prefix);
        assert hist[..len][..prefix] == hist[..prefix];
        len := prefix;
      }
      if |tmp| < 1 {
        return [];
      }
      assert tmp[..len] == hist[..len];
      Put(tmp[len..]);
      assert hist[..|tmp|] == hist[..len] + hist[len..|tmp|] == tmp;
      reply := Answer(|tmp| - len, if wanted > c.limit then c.limit else wanted, greedy, src);
    }

    // Writes tokens behind the cached ones.
    method Put(ts: seq<int>)
      requires Valid() && len + |ts| <= c.ctx
      modifies hist
      ensures Valid() && hist[..len] == old(hist[..len]) && hist[len..len + |ts|] == ts
      ensures hist[..len + |ts|] == old(hist[..len]) + ts
      ensures ts == [] ==> hist[..] == old(hist[..])
    {
      hide Fresh;
      for i := 0 to |ts|
        invariant hist[..len] == old(hist[..len]) && hist[len..len + i] == ts[..i]
        invariant i == 0 ==> hist[..] == old(hist[..])
      {
        hist[len + i] := ts[i];
        assert hist[len..len + i + 1] == hist[len..len + i] + [ts[i]];
      }
      assert hist[..len + |ts|] == hist[..len] + hist[len..len + |ts|];
    }

    // A line of the interactive protocol: a new turn behind the cached history, or, when that
    // would overflow the context, behind nothing. A tail left by the turn before is not part of
    // the history.
    method Line(enc: bool -> seq<int>, src: Source) returns (reply: seq<int>)
      requires Valid()
      modifies this, hist, kv
      ensures Valid()
      ensures var t := TurnOf(c, old(hist[..len]), old(first), enc);
              if t.tokens == [] then reply == [] && Seen() == (if t.fits then old(Seen()) else NOTHING)
              else Decodes(c, c.greedy, t.base + t.tokens, c.limit, src, reply, Seen())
    {
      hide Fresh, Logits, Greedy, TurnOf;
      var k := PlaceTurn(enc);
      if k < 1 {
        return [];
      }
      reply := Answer(k, c.limit, c.greedy, src);
    }

    method PlaceTurn(enc: bool -> seq<int>) returns (k: nat)
      requires Valid()
      modifies this, hist
      ensures Valid() && len + k + c.margin + 2 <= c.ctx
      ensures var t := TurnOf(c, old(hist[..len]), old(first), enc);
              && hist[..len + k] == t.base + t.tokens && k == |t.tokens|
              && (k == 0 ==> Seen() == (if t.fits then old(Seen()) else NOTHING))
    {
      hide Fresh, Cut;
      var turn := Cut(enc(first), c.ctx - len);
      Put(turn);
      if len + |turn| + 8 + c.margin >= c.ctx {
        turn := StartOver(enc);
      }
      k := |turn|;
    }

    // A turn that does not fit is taken as the first of a new conversation, as far as it has room.
    method StartOver(enc: bool -> seq<int>) returns (turn: seq<int>)
      requires Valid()
      modifies this, hist
      ensures Valid() && turn == Cut(enc(true), c.ctx - 8 - c.margin) && Seen() == NOTHING && hist[..|turn|] == turn
    {
      hide Fresh;
      Reset();
      turn := Cut(enc(true), c.ctx);
      if |turn| > c.ctx - 8 - c.margin {
        turn := turn[..c.ctx - 8 - c.margin];
      }
      Put(turn);
      assert hist[..0] == [];
    }

    // A MORE frame: continues a reply that was cut.
    method More(src: Source) returns (reply: seq<int>)
      requires Valid()
      modifies this, hist, kv
      ensures Valid()
      ensures if old(len) == 0 then reply == [] && Seen() == old(Seen())
              else Decodes(c, c.greedy, old(Shown(Seen())), c.limit, src, reply, Seen())
    {
      hide Fresh, Logits, Greedy, Replies;
      if len < 1 {
        return [];
      }
      var logit;
      if tail {
        assert hist[..len] + [hist[len]] == hist[..len + 1];
        logit := Step(c.net, kv, [hist[len]], len, hist[..len]);
        len, tail := len + 1, false;
      } else {
        logit := Redo();
        assert hist[..len] + [] == hist[..len];
      }
      var cur := Allowance(c, len, c.limit);
      assert Room(c, len, c.limit, cur);
      reply := Decode(cur, c.greedy, src, logit);
    }

    // A RESET frame.
    method Reset()
      requires Valid()
      modifies this
      ensures Valid() && Seen() == NOTHING
    {
      FreshPrefix(c.net, kv.rows, hist[..len], 0);
      assert hist[..len][..0] == hist[..0];
      len, first, tail := 0, true, false;
    }
  }

  lemma SeenIsView<R, L>(s: Slot<R, L>)
    requires s.Valid()
    ensures IsView(s.Seen())
  {
  }

  lemma Chunk(hist: seq<int>, len: nat, n: nat)
    requires len + n <= |hist|
    ensures hist[..len + n] == hist[..len] + hist[len..len + n]
  {
  }

  lemma SampledNone(src: Source, stops: set<int>, base: nat, rows: nat)
    ensures SampledRun(src, stops, 0, base, rows, [], [])
  {
  }

  lemma GreedyNone<R, L>(net: Net<R, L>, stops: set<int>, h: seq<int>)
    ensures Greedy(net, stops, h, 0) == []
  {
  }

  // ---- the session ----

  // The frames of the serve protocol. A PROMPT frame whose header is refused, or whose payload
  // holds a NUL byte, decodes nothing.
  datatype Frame =
    | ResetFrame
    | MoreFrame(src: Source)
    | EmptyFrame
    | LineFrame(enc: bool -> seq<int>, src: Source)
    | PromptFrame(slot: nat, tokens: seq<int>, wanted: nat, greedy: bool, src: Source)
    | RefusedHeader
    | RefusedPayload(slot: nat)

  // The slot a frame works on: interactive lines go to slot 0, and RESET and MORE to whichever
  // slot the frame before used.
  function Target(f: Frame, active: nat): nat {
    match f
    case LineFrame(_, _) => 0
    case PromptFrame(slot, _, _, _, _) => slot
    case RefusedPayload(slot) => slot
    case _ => active
  }

  // What a frame must do to its slot, and reply, in terms of what the client has seen.
  ghost predicate Answers<R, L>(c: Config<R, L>, f: Frame, before: View, reply: seq<int>, after: View) {
    match f
    case ResetFrame => reply == [] && after == NOTHING
    case MoreFrame(src) =>
      if before.cached == [] then reply == [] && after == before
      else Decodes(c, c.greedy, Shown(before), c.limit, src, reply, after)
    case LineFrame(enc, src) =>
      var t := TurnOf(c, before.cached, before.first, enc);
      if t.tokens == [] then reply == [] && after == (if t.fits then before else NOTHING)
      else Decodes(c, c.greedy, t.base + t.tokens, c.limit, src, reply, after)
    case PromptFrame(_, tokens, wanted, greedy, src) =>
      var p := Cut(tokens, c.ctx - 8 - c.margin);
      if p == [] then reply == [] && after == View([], [], before.first)
      else Decodes(c, greedy, p, if wanted > c.limit then c.limit else wanted, src, reply, after)
    case _ => reply == [] && after == before
  }

  // ---- what an interactive line keeps ----

  // A turn that fits goes on from everything the client has seen.
  ghost predicate Keeps<R, L>(c: Config<R, L>, v: View, enc: bool -> seq<int>) {
    var t := TurnOf(c, v.cached, v.first, enc);
    t.fits && t.tokens != [] ==> Shown(v) <= t.base + t.tokens
  }

  // A view as a slot shows it: at most one uncached token.
  predicate IsView(v: View) {
    |v.tail| <= 1
  }

  // The turn with one token t.
  function OneToken(t: int): bool -> seq<int> {
    _ => [t]
  }

  // One turn goes on from what was seen exactly when nothing is uncached or its first token
  // happens to be the uncached one.
  lemma KeepsExactly<R, L>(c: Config<R, L>, v: View, enc: bool -> seq<int>)
    requires IsView(v)
    ensures var t := TurnOf(c, v.cached, v.first, enc);
            t.fits && t.tokens != [] ==> (Keeps(c, v, enc) <==> v.tail == [] || v.tail == [t.tokens[0]])
  {
    var t := TurnOf(c, v.cached, v.first, enc);
    if t.fits && t.tokens != [] {
      var h := v.cached + t.tokens;
      assert h[|v.cached|] == t.tokens[0];
      if v.tail != [] {
        assert Shown(v)[|v.cached|] == v.tail[0];
        if Shown(v) <= h {
          assert Shown(v)[|v.cached|] == h[|v.cached|];
        }
        if v.tail[0] == t.tokens[0] {
          assert h[..|v.cached| + 1] == Shown(v);
        }
      }
    }
  }

  // Interactive turns go on from what the client has seen exactly when the reply before was not
  // cut: with an uncached token, some turn forgets it.
  lemma LinesKeepIffUncut<R, L>(c: Config<R, L>, v: View)
    requires IsView(v) && |v.cached| + 9 + c.margin < c.ctx
    ensures v.tail == [] <==> forall enc: bool -> seq<int> :: Keeps(c, v, enc)
  {
    if v.tail == [] {
      forall enc: bool -> seq<int>
        ensures Keeps(c, v, enc)
      {
        KeepsExactly(c, v, enc);
      }
    } else {
      var enc := OneToken(v.tail[0] + 1);
      assert TurnOf(c, v.cached, v.first, enc) == Turn(v.cached, [v.tail[0] + 1], true);
      KeepsExactly(c, v, enc);
      assert !Keeps(c, v, enc);
    }
  }

  // An input at which a token the client has seen is forgotten: 7 is cached, 8 was shown but not
  // cached, and the next turn is 9.
  lemma LineForgets<R, L>(c: Config<R, L>)
    requires c.ctx > 10 + c.margin
    ensures !Keeps(c, View([7], [8], false), OneToken(9))
    ensures TurnOf(c, [7], false, OneToken(9)) == Turn([7], [9], true)
  {
    KeepsExactly(c, View([7], [8], false), OneToken(9));
  }

  // A chain of greedy MORE frames: however often a reply is cut and continued, what the client has
  // seen is the prompt followed by an initial part of the one greedy decoding.
  lemma {:induction false} MoresFollowGreedy<R, L>(c: Config<R, L>, p: seq<int>, n: nat, views: seq<View>, replies: seq<seq<int>>, src: Source)
      returns (m: nat)
    requires c.greedy && |views| == |replies| + 1
    requires views[0].cached != [] && Shown(views[0]) == p + Greedy(c.net, c.stops, p, n)
    requires forall i :: 0 <= i < |replies| ==> Answers(c, MoreFrame(src), views[i], replies[i], views[i + 1])
    ensures m >= n && Shown(views[|replies|]) == p + Greedy(c.net, c.stops, p, m)
    decreases |replies|
  {
    hide Greedy;
    m := n;
    if replies != [] {
      var h := Shown(views[0]);
      assert Answers(c, MoreFrame(src), views[0], replies[0], views[1]);
      var a :| Room(c, |h|, c.limit, a) && Replies(c, c.greedy, h, a, src, replies[0]);
      GreedyContinues(c.net, c.stops, p, n, a);
      assert h + replies[0] == p + (Greedy(c.net, c.stops, p, n) + replies[0]);
      m := MoresFollowGreedy(c, p, n + a, views[1..], replies[1..], src);
    }
  }

  // A greedy prompt and then MORE frames show the prompt's single greedy sequence.
  lemma PromptThenMores<R, L>(c: Config<R, L>, p: Frame, before: View, views: seq<View>, replies: seq<seq<int>>, src: Source)
      returns (m: nat)
    requires c.greedy && p.PromptFrame? && p.greedy && |views| == |replies| >= 1
    requires Cut(p.tokens, c.ctx - 8 - c.margin) != [] && Answers(c, p, before, replies[0], views[0])
    requires forall i :: 1 <= i < |replies| ==> Answers(c, MoreFrame(src), views[i - 1], replies[i], views[i])
    ensures var t := Cut(p.tokens, c.ctx - 8 - c.margin);
            Shown(views[|views| - 1]) == t + Greedy(c.net, c.stops, t, m)
  {
    hide Greedy;
    var t := Cut(p.tokens, c.ctx - 8 - c.margin);
    var wanted := if p.wanted > c.limit then c.limit else p.wanted;
    var n :| Room(c, |t|, wanted, n) && Replies(c, p.greedy, t, n, p.src, replies[0]);
    forall i | 0 <= i < |replies| - 1
      ensures Answers(c, MoreFrame(src), views[i], replies[1..][i], views[i + 1])
    {
      assert Answers(c, MoreFrame(src), views[(i + 1) - 1], replies[i + 1], views[i + 1]);
    }
    m := MoresFollowGreedy(c, t, n, views, replies[1..], src);
  }

  class Session<!R, !L> {
    const c: Config<R, L>
    const slots: seq<Slot<R, L>>
    var active: nat

    ghost function Footprint(): set<object>
      reads this
    {
      (set i | 0 <= i < |slots| :: slots[i] as object) + (set i | 0 <= i < |slots| :: slots[i].hist as object)
      + (set i | 0 <= i < |slots| :: slots[i].kv as object)
    }

    // Slots share nothing.
    ghost predicate Apart()
    {
      forall i, j :: 0 <= i < j < |slots| ==>
        slots[i] != slots[j] && slots[i].hist != slots[j].hist && slots[i].kv != slots[j].kv
    }

    ghost predicate Valid()
      reads this, Footprint()
    {
      && 0 < |slots| && active < |slots| && Apart()
      && forall i :: 0 <= i < |slots| ==> slots[i].Valid() && slots[i].c == c
    }

    constructor (c: Config<R, L>, slots: seq<Slot<R, L>>)
      requires 0 < |slots| && forall i :: 0 <= i < |slots| ==> slots[i].Valid() && slots[i].c == c
      requires forall i, j :: 0 <= i < j < |slots| ==>
                 slots[i] != slots[j] && slots[i].hist != slots[j].hist && slots[i].kv != slots[j].kv
      ensures Valid() && this.c == c && this.slots == slots && active == 0
    {
      this.c, this.slots, active := c, slots, 0;
    }

    // One frame: only its slot changes, and it answers as a decode from scratch would.
    method Handle(f: Frame) returns (reply: seq<int>)
      requires Valid() && Target(f, active) < |slots|
      modifies this, Footprint()
      ensures Valid() && active == Target(f, old(active))
      ensures f.LineFrame? ==> active == 0
      ensures f.PromptFrame? || f.RefusedPayload? ==> active == f.slot
      ensures f.ResetFrame? || f.MoreFrame? || f.EmptyFrame? || f.RefusedHeader? ==> active == old(active)
      ensures forall i :: 0 <= i < |slots| && i != active ==> slots[i].Seen() == old(slots[i].Seen())
      ensures Answers(c, f, old(slots[Target(f, active)].Seen()), reply, slots[active].Seen())
    {
      hide Answers, Slot.Valid, Slot.Seen;
      active := Target(f, active);
      reply := Serve(slots[active], f);
    }
  }

  method Serve<R, L>(s: Slot<R, L>, f: Frame) returns (reply: seq<int>)
    requires s.Valid()
    modifies s, s.hist, s.kv
    ensures s.Valid() && Answers(s.c, f, old(s.Seen()), reply, s.Seen())
  {
    hide Decodes, TurnOf, Fresh;
    reply := [];
    match f {
      case ResetFrame => s.Reset();
      case MoreFrame(src) => reply := s.More(src);
      case LineFrame(enc, src) => reply := s.Line(enc, src);
      case PromptFrame(_, tokens, wanted, greedy, src) => reply := s.Prompt(tokens, wanted, greedy, src);
      case _ =>
    }
  }
}

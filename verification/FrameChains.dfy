/** live_task_threads.py's kernel_chains: candidate frame chains in one kernel stack image. */
module FrameChains {

  import opened Bytes
  import Arithmetic

  const KERNEL_LOW := 0xffff_fff0_0700_4000
  const KERNEL_HIGH := 0xffff_fff0_4000_0000
  const CANONICAL := 0xffff_0000_0000_0000

  /** _ptr: the sixteen tag bits of a non-zero word set. */
  function Ptr(w: int): int
    requires 0 <= w < 0x1_0000_0000_0000_0000
  {
    if w == 0 then 0 else CANONICAL + w % 0x1_0000_0000_0000
  }

  datatype Link = Link(parent: int, lr: int)

  datatype Frame = Frame(fp: int, lr: int)

  type Links = map<int, Link>

  function Pair(raw: seq<byte>, off: nat): Link
    requires off + 16 <= |raw|
  {
    Link(Ptr(U64(raw, off)), Ptr(U64(raw, off + 8)))
  }

  /** A saved pair is a link when its parent lies higher in the stack, aligned, and it returns into the kernel. */
  predicate IsLink(raw: seq<byte>, base: int, off: nat)
    requires off + 16 <= |raw|
  {
    var l := Pair(raw, off);
    base + off < l.parent < base + |raw| && l.parent % 16 == 0 && KERNEL_LOW <= l.lr < KERNEL_HIGH
  }

  /** Every link goes up, and stays below `top`. */
  ghost predicate Ascends(links: Links, top: int) {
    forall fp :: fp in links ==> fp < links[fp].parent < top
  }

  /** The frames from `fp` up to the first address that is no link. */
  ghost function Chain(links: Links, fp: int, top: int): seq<Frame>
    requires Ascends(links, top)
    decreases if fp < top then top - fp else 0
  {
    if fp in links then [Frame(fp, links[fp].lr)] + Chain(links, links[fp].parent, top) else []
  }

  /** links.keys() - {v[0] for v in links.values()} */
  function Starts(links: Links): set<int> {
    links.Keys - (set fp | fp in links :: links[fp].parent)
  }

  /** An address among the first `upTo` bytes where a link stands. */
  predicate Linked(raw: seq<byte>, base: int, fp: int, upTo: int) {
    base <= fp < base + upTo && fp - base + 16 <= |raw| && (fp - base) % 16 == 0 && IsLink(raw, base, fp - base)
  }

  ghost predicate LinksOf(raw: seq<byte>, base: int, links: Links, upTo: int) {
    && (forall fp :: fp in links <==> Linked(raw, base, fp, upTo))
    && (forall fp :: fp in links ==> links[fp] == Pair(raw, fp - base))
  }

  /** chains.sort(key=len, reverse=True): longest first, equals in the order they came. */
  function Insert(chains: seq<seq<Frame>>, c: seq<Frame>): seq<seq<Frame>> {
    if chains == [] || |chains[0]| < |c| then [c] + chains else [chains[0]] + Insert(chains[1..], c)
  }

  ghost predicate LongestFirst(chains: seq<seq<Frame>>) {
    forall i, j :: 0 <= i < j < |chains| ==> |chains[i]| >= |chains[j]|
  }

  /** Where a chain is placed: behind every chain at least as long, before every shorter one. */
  lemma {:induction false} InsertPlace(chains: seq<seq<Frame>>, c: seq<Frame>) returns (k: nat)
    requires LongestFirst(chains)
    ensures k <= |chains| && Insert(chains, c) == chains[..k] + [c] + chains[k..]
    ensures (forall i :: 0 <= i < k ==> |chains[i]| >= |c|) && forall i :: k <= i < |chains| ==> |chains[i]| < |c|
  {
    if chains == [] || |chains[0]| < |c| {
      k := 0;
    } else {
      var rest := chains[1..];
      assert forall i :: 0 <= i < |rest| ==> rest[i] == chains[i + 1];
      k := InsertPlace(rest, c);
      assert chains[..k + 1] == [chains[0]] + rest[..k] && chains[k + 1..] == rest[k..];
      k := k + 1;
    }
  }

  lemma InsertLaws(chains: seq<seq<Frame>>, c: seq<Frame>)
    requires LongestFirst(chains)
    ensures LongestFirst(Insert(chains, c)) && multiset(Insert(chains, c)) == multiset(chains) + multiset{c}
    ensures forall x :: x in Insert(chains, c) <==> x in chains || x == c
  {
    hide Insert, LongestFirst;
    var k := InsertPlace(chains, c);
    var a, b := chains[..k], chains[k..];
    assert chains == a + b;
    Placed(a, c, b);
  }

  lemma Placed(a: seq<seq<Frame>>, c: seq<Frame>, b: seq<seq<Frame>>)
    requires LongestFirst(a + b)
    requires (forall i :: 0 <= i < |a| ==> |a[i]| >= |c|) && forall i :: 0 <= i < |b| ==> |b[i]| < |c|
    ensures LongestFirst(a + [c] + b) && multiset(a + [c] + b) == multiset(a + b) + multiset{c}
    ensures forall x :: x in a + [c] + b <==> x in a + b || x == c
  {
    var whole, bare := a + [c] + b, a + b;
    forall i, j | 0 <= i < j < |whole| ensures |whole[i]| >= |whole[j]| {
      assert i < |a| ==> whole[i] == bare[i];
      assert j < |a| ==> whole[j] == bare[j];
      assert i > |a| ==> whole[i] == bare[i - 1];
      assert j > |a| ==> whole[j] == bare[j - 1];
    }
  }

  // ---------- what a saved pair is ----------

  /** The word at `off` is a tag of sixteen bits and an address of forty-eight. */
  predicate TaggedAt(raw: seq<byte>, off: nat, tag: nat, low: nat) {
    off + 8 <= |raw| && tag < 0x1_0000 && low < 0x1_0000_0000_0000
    && Little(raw[off..off + 8]) == tag * 0x1_0000_0000_0000 + low
  }

  /** The address a tagged word names: the kernel's half of the space, whatever the tag; nothing for zero. */
  function Named(tag: nat, low: nat): int { if tag == 0 && low == 0 then 0 else 0xffff_0000_0000_0000 + low }

  lemma TaggedWord(raw: seq<byte>, off: nat, tag: nat, low: nat)
    requires TaggedAt(raw, off, tag, low)
    ensures U64(raw, off) == tag * 0x1_0000_0000_0000 + low && U64(raw, off) < 0x1_0000_0000_0000_0000
    ensures Ptr(U64(raw, off)) == Named(tag, low)
  {
    LongsAreLittle(raw, off, 0);
    Arithmetic.Unique(tag * 0x1_0000_0000_0000 + low, 0x1_0000_0000_0000, tag, low);
  }

  /** A saved pair is a link exactly by the addresses its two words name. */
  lemma LinkIff(raw: seq<byte>, base: int, off: nat, tag: nat, low: nat, lrTag: nat, lrLow: nat)
    requires TaggedAt(raw, off, tag, low) && TaggedAt(raw, off + 8, lrTag, lrLow)
    ensures Pair(raw, off) == Link(Named(tag, low), Named(lrTag, lrLow))
    ensures IsLink(raw, base, off) <==>
              base + off < Named(tag, low) < base + |raw| && low % 16 == 0
              && 0xffff_fff0_0700_4000 <= Named(lrTag, lrLow) < 0xffff_fff0_4000_0000
  {
    TaggedWord(raw, off, tag, low);
    TaggedWord(raw, off + 8, lrTag, lrLow);
    NamedAligned(tag, low);
    hide TaggedAt, Ptr, Named, U64;
  }

  lemma NamedAligned(tag: nat, low: nat)
    ensures Named(tag, low) % 16 == 0 <==> low % 16 == 0
  {
  }

  /** Two images that agree in the address bits of every word, and in which words are zero. */
  ghost predicate SameAddresses(a: seq<byte>, b: seq<byte>) {
    |a| == |b|
    && forall off: nat :: off + 8 <= |a| && off % 8 == 0 ==>
         U64(a, off) % 0x1_0000_0000_0000 == U64(b, off) % 0x1_0000_0000_0000 && (U64(a, off) == 0 <==> U64(b, off) == 0)
  }

  /** The tags change no link. */
  lemma TagsDoNotMatter(a: seq<byte>, b: seq<byte>, base: int, links: Links)
    requires SameAddresses(a, b) && LinksOf(a, base, links, |a|)
    ensures LinksOf(b, base, links, |b|)
  {
    hide U64, SameAddresses, IsLink, Pair;
    SameLength(a, b);
    forall off: nat | off + 16 <= |a| && off % 16 == 0
      ensures Pair(a, off) == Pair(b, off) && IsLink(a, base, off) == IsLink(b, base, off)
    {
      SamePair(a, b, base, off);
    }
    forall fp ensures fp in links <==> Linked(b, base, fp, |b|) {
      assert fp in links <==> Linked(a, base, fp, |a|);
    }
  }

  lemma SameLength(a: seq<byte>, b: seq<byte>)
    requires SameAddresses(a, b)
    ensures |a| == |b|
  {
  }

  lemma SamePair(a: seq<byte>, b: seq<byte>, base: int, off: nat)
    requires SameAddresses(a, b) && off + 16 <= |a| && off % 16 == 0
    ensures |a| == |b| && Pair(a, off) == Pair(b, off) && IsLink(a, base, off) == IsLink(b, base, off)
  {
    hide U64, Ptr, SameAddresses, Pair;
    SameLength(a, b);
    PairsAgree(a, b, off);
  }

  lemma PairsAgree(a: seq<byte>, b: seq<byte>, off: nat)
    requires SameAddresses(a, b) && off + 16 <= |a| && off % 16 == 0
    ensures |a| == |b| && Pair(a, off) == Pair(b, off)
  {
    hide U64, Ptr, SameAddresses;
    SameLength(a, b);
    EighthsToo(off);
    SameWord(a, b, off);
    SameWord(a, b, off + 8);
  }

  lemma EighthsToo(off: nat)
    requires off % 16 == 0
    ensures off % 8 == 0 && (off + 8) % 8 == 0
  {
    Arithmetic.Unique(off, 8, off / 16 * 2, 0);
    Arithmetic.Unique(off + 8, 8, off / 16 * 2 + 1, 0);
  }

  lemma SameWord(a: seq<byte>, b: seq<byte>, off: nat)
    requires SameAddresses(a, b) && off + 8 <= |a| && off % 8 == 0
    ensures U64(a, off) < 0x1_0000_0000_0000_0000 && U64(b, off) < 0x1_0000_0000_0000_0000
    ensures Ptr(U64(a, off)) == Ptr(U64(b, off))
  {
    WordBound(a, off);
    WordBound(b, off);
    hide U64;
  }

  lemma WordBound(raw: seq<byte>, off: nat)
    requires off + 8 <= |raw|
    ensures U64(raw, off) < 0x1_0000_0000_0000_0000
  {
    hide U32;
  }

  /** The pass over the stack image in steps of sixteen bytes. */
  method ReadLinks(raw: seq<byte>, base: int) returns (links: Links)
    ensures LinksOf(raw, base, links, |raw|)
  {
    hide Pair, IsLink;
    links := map[];
    var offset := 0;
    while offset + 16 <= |raw|
      invariant offset % 16 == 0 && LinksOf(raw, base, links, offset)
    {
      var l := Pair(raw, offset);
      ghost var before := links;
      if IsLink(raw, base, offset) {
        links := links[base + offset := l];
      }
      OneMore(raw, base, before, links, offset);
      offset := offset + 16;
    }
  }

  lemma OneMore(raw: seq<byte>, base: int, before: Links, after: Links, offset: nat)
    requires offset % 16 == 0 && offset + 16 <= |raw| && LinksOf(raw, base, before, offset)
    requires after == if IsLink(raw, base, offset) then before[base + offset := Pair(raw, offset)] else before
    ensures LinksOf(raw, base, after, offset + 16)
  {
    hide Pair, IsLink;
    assert base + offset !in before;
  }

  lemma LinksAscend(raw: seq<byte>, base: int, links: Links)
    requires LinksOf(raw, base, links, |raw|)
    ensures Ascends(links, base + |raw|) && forall fp :: fp in links ==> base <= fp
  {
  }

  /** One chain: `fp` climbs from link to link, so the loop ends. */
  method Follow(links: Links, start: int, ghost top: int) returns (frames: seq<Frame>)
    requires Ascends(links, top)
    ensures frames == Chain(links, start, top)
  {
    var fp := start;
    frames := [];
    while fp in links
      invariant frames + Chain(links, fp, top) == Chain(links, start, top)
      decreases top - fp
    {
      Regroup(frames, Frame(fp, links[fp].lr), Chain(links, links[fp].parent, top));
      frames := frames + [Frame(fp, links[fp].lr)];
      fp := links[fp].parent;
    }
    assert frames + [] == frames;
  }

  lemma Regroup(a: seq<Frame>, f: Frame, b: seq<Frame>)
    ensures a + ([f] + b) == a + [f] + b
  {
  }

  /** Exactly the chains of at least two frames from the links without a predecessor, each once, longest first. */
  ghost predicate Reported(links: Links, top: int, starts: set<int>, chains: seq<seq<Frame>>)
    requires Ascends(links, top)
  {
    && LongestFirst(chains)
    && (forall c: seq<Frame> :: c in chains ==> |c| >= 2 && c[0].fp in starts && c == Chain(links, c[0].fp, top))
    && (forall s :: s in starts && |Chain(links, s, top)| >= 2 ==> Chain(links, s, top) in chains)
    && (forall c: seq<Frame> :: multiset(chains)[c] <= 1)
  }

  method KernelChains(raw: seq<byte>, base: int) returns (links: Links, chains: seq<seq<Frame>>)
    ensures LinksOf(raw, base, links, |raw|) && Ascends(links, base + |raw|)
    ensures Reported(links, base + |raw|, Starts(links), chains)
  {
    hide LinksOf, Chain, Insert;
    links := ReadLinks(raw, base);
    LinksAscend(raw, base, links);
    ghost var top := base + |raw|;
    chains := [];
    var todo := Starts(links);
    ghost var done: set<int> := {};
    while todo != {}
      invariant done + todo == Starts(links) && done !! todo
      invariant Reported(links, top, done, chains)
      decreases todo
    {
      SomeElement(todo);
      var start :| start in todo;
      var frames := Follow(links, start, top);
      ghost var before := chains;
      if |frames| >= 2 {
        chains := Insert(chains, frames);
      }
      OneStart(links, top, done, before, start, chains);
      todo := todo - {start};
      done := done + {start};
    }
    assert done == Starts(links);
  }

  lemma SomeElement(s: set<int>)
    ensures s == {} || exists x :: x in s
  {
    if forall x :: x !in s {
      assert s == {};
    }
  }

  lemma OneStart(links: Links, top: int, done: set<int>, before: seq<seq<Frame>>, start: int, after: seq<seq<Frame>>)
    requires Ascends(links, top) && Reported(links, top, done, before) && start !in done
    requires after == if |Chain(links, start, top)| >= 2 then Insert(before, Chain(links, start, top)) else before
    ensures Reported(links, top, done + {start}, after)
  {
    hide Insert, Chain;
    var c := Chain(links, start, top);
    HeadIsStart(links, start, top);
    if |c| >= 2 {
      assert c !in before;
      InsertLaws(before, c);
      OneMoreChain(links, top, done, before, start, after);
    }
  }

  lemma OneMoreChain(links: Links, top: int, done: set<int>, before: seq<seq<Frame>>, start: int, after: seq<seq<Frame>>)
    requires Ascends(links, top) && Reported(links, top, done, before)
    requires var c := Chain(links, start, top);
             && |c| >= 2 && c[0].fp == start && c !in before && LongestFirst(after)
             && multiset(after) == multiset(before) + multiset{c} && forall x :: x in after <==> x in before || x == c
    ensures Reported(links, top, done + {start}, after)
  {
    hide Chain, LongestFirst;
  }

  lemma HeadIsStart(links: Links, start: int, top: int)
    requires Ascends(links, top)
    ensures |Chain(links, start, top)| > 0 ==> Chain(links, start, top)[0].fp == start
    ensures |Chain(links, start, top)| > 0 <==> start in links
  {
  }

  // ---------- what the chains are ----------

  /** Frames follow the links, upwards, to an address that is none. */
  lemma {:induction false} ChainIsLinked(links: Links, fp: int, top: int)
    requires Ascends(links, top)
    ensures var c := Chain(links, fp, top);
            && (forall i :: 0 <= i < |c| ==> c[i].fp in links && c[i].lr == links[c[i].fp].lr)
            && (forall i :: 0 <= i < |c| - 1 ==> c[i + 1].fp == links[c[i].fp].parent && c[i].fp < c[i + 1].fp)
            && (c != [] ==> c[0].fp == fp && links[c[|c| - 1].fp].parent !in links)
    decreases if fp < top then top - fp else 0
  {
    if fp in links {
      ChainIsLinked(links, links[fp].parent, top);
      HeadIsStart(links, links[fp].parent, top);
    }
  }

  /** Above a frame of a chain, the chain goes on as the frame's own chain does. */
  lemma {:induction false} ChainGoesOn(links: Links, start: int, top: int, i: nat)
    requires Ascends(links, top) && i < |Chain(links, start, top)|
    ensures Chain(links, start, top)[i..] == Chain(links, Chain(links, start, top)[i].fp, top)
    decreases i
  {
    var c := Chain(links, start, top);
    HeadIsStart(links, start, top);
    if i > 0 {
      var rest := Chain(links, links[start].parent, top);
      assert c[1..] == rest && c[i] == rest[i - 1] && c[i..] == rest[i - 1..];
      ChainGoesOn(links, links[start].parent, top, i - 1);
    } else {
      assert c[0..] == c;
    }
  }

  /** Every link lies on the chain of some link without a predecessor, before short chains are dropped. */
  lemma {:induction false} EveryLinkIsOnAChain(links: Links, base: int, top: int, fp: int) returns (start: int, i: nat)
    requires Ascends(links, top) && (forall k :: k in links ==> base <= k) && fp in links
    ensures start in Starts(links) && i < |Chain(links, start, top)| && Chain(links, start, top)[i].fp == fp
    decreases fp - base
  {
    if below :| below in links && links[below].parent == fp {
      start, i := EveryLinkIsOnAChain(links, base, top, below);
      ChainGoesOn(links, start, top, i);
      var c := Chain(links, start, top);
      NextOnChain(links, below, top);
      assert c[i..][1] == c[i + 1];
      i := i + 1;
    } else {
      start, i := fp, 0;
      HeadIsStart(links, fp, top);
    }
  }

  lemma NextOnChain(links: Links, below: int, top: int)
    requires Ascends(links, top) && below in links && links[below].parent in links
    ensures |Chain(links, below, top)| >= 2 && Chain(links, below, top)[1].fp == links[below].parent
  {
    HeadIsStart(links, links[below].parent, top);
  }

  /** A link is missing from the report if and only if it is alone: no link goes to it and it goes to none. */
  lemma ReportOmitsOnlyLoneLinks(links: Links, base: int, top: int, chains: seq<seq<Frame>>, fp: int)
    requires Ascends(links, top) && (forall k :: k in links ==> base <= k) && fp in links
    requires Reported(links, top, Starts(links), chains)
    ensures (exists c: seq<Frame>, i :: c in chains && 0 <= i < |c| && c[i].fp == fp)
            <==> fp !in Starts(links) || links[fp].parent in links
  {
    hide Starts, Chain, LongestFirst;
    var start, i := EveryLinkIsOnAChain(links, base, top, fp);
    var mine := Chain(links, start, top);
    HeadIsStart(links, start, top);
    if fp !in Starts(links) || links[fp].parent in links {
      if i == 0 {
        NextOnChain(links, fp, top);
      }
      assert mine in chains && mine[i].fp == fp;
    } else {
      forall c: seq<Frame>, j | c in chains && 0 <= j < |c|
        ensures c[j].fp != fp
      {
        LoneLink(links, c[0].fp, top, fp, j);
      }
    }
  }

  lemma LoneLink(links: Links, start: int, top: int, fp: int, j: nat)
    requires Ascends(links, top) && fp in Starts(links) && links[fp].parent !in links
    requires j < |Chain(links, start, top)| && |Chain(links, start, top)| >= 2
    ensures Chain(links, start, top)[j].fp != fp
  {
    var c := Chain(links, start, top);
    ChainIsLinked(links, start, top);
    if j > 0 {
      assert c[j - 1].fp in links && links[c[j - 1].fp].parent == c[j].fp;
    }
  }

  // ---------- a link the report leaves out ----------

  const LONE_BASE := 0xFFFF_FE00_0000_4000

  const LONE_PARENT: seq<byte> := [0x10, 0x40, 0, 0, 0, 0xFE, 0xFF, 0xFF]
  const LONE_RETURN: seq<byte> := [0, 0x40, 0, 7, 0xF0, 0xFF, 0xFF, 0xFF]

  /** A stack image of two frames: a link to the second, and nothing there. */
  function LoneImage(): (raw: seq<byte>)
    ensures |raw| == 32
  {
    LONE_PARENT + LONE_RETURN + Zeros(16)
  }

  lemma WordWithin(raw: seq<byte>, off: nat, w: seq<byte>)
    requires |w| == 8 && At(raw, off, w)
    ensures U64(raw, off) == U64(w, 0)
  {
    assert forall k :: 0 <= k < 8 ==> raw[off + k] == raw[off..off + 8][k] == w[k];
    assert w[0] == raw[off] && w[4] == raw[off + 4];
  }

  lemma TwoPairs(a: seq<byte>, b: seq<byte>)
    requires |a| == 8 && |b| == 8
    ensures var raw := a + b + Zeros(16);
            Pair(raw, 0) == Link(Ptr(U64(a, 0)), Ptr(U64(b, 0))) && Pair(raw, 16) == Link(Ptr(0), Ptr(0))
  {
    hide U64, Ptr;
    var raw := a + b + Zeros(16);
    assert At(raw, 0, a) && At(raw, 8, b) && At(raw, 16, Zeros(8)) && At(raw, 24, Zeros(8));
    WordWithin(raw, 0, a);
    WordWithin(raw, 8, b);
    WordWithin(raw, 16, Zeros(8));
    WordWithin(raw, 24, Zeros(8));
    NoWord();
  }

  lemma NoWord()
    ensures U64(Zeros(8), 0) == 0
  {
    var z := Zeros(8);
    hide Zeros;
    NoBytes(z);
  }

  lemma NoBytes(z: seq<byte>)
    requires |z| == 8 && forall i :: 0 <= i < 8 ==> z[i] == 0
    ensures U64(z, 0) == 0
  {
    assert z[0] == 0 && z[1] == 0 && z[2] == 0 && z[3] == 0 && z[4] == 0 && z[5] == 0 && z[6] == 0 && z[7] == 0;
  }

  lemma LoneWords()
    ensures U64(LONE_PARENT, 0) == LONE_BASE + 16 && U64(LONE_RETURN, 0) == KERNEL_LOW
  {
  }

  lemma LonePairs()
    ensures Pair(LoneImage(), 0) == Link(LONE_BASE + 16, KERNEL_LOW) && Pair(LoneImage(), 16) == Link(Ptr(0), Ptr(0))
  {
    hide U64, Pair, Zeros, Ptr;
    LoneWords();
    LoneAddresses();
    TwoPairs(LONE_PARENT, LONE_RETURN);
  }

  lemma LoneAddresses()
    ensures Ptr(LONE_BASE + 16) == LONE_BASE + 16 && Ptr(KERNEL_LOW) == KERNEL_LOW
  {
  }

  /** Its one link is found, and no chain of the report holds it. */
  lemma LoneLinkIsOmitted()
    ensures var links: Links := map[LONE_BASE := Link(LONE_BASE + 16, KERNEL_LOW)];
            && LinksOf(LoneImage(), LONE_BASE, links, 32) && Ascends(links, LONE_BASE + 32)
            && Reported(links, LONE_BASE + 32, Starts(links), []) && LONE_BASE in Starts(links)
  {
    hide Pair, Chain;
    var links: Links := map[LONE_BASE := Link(LONE_BASE + 16, KERNEL_LOW)];
    var top := LONE_BASE + 32;
    LonePairs();
    ChainOfOne(links, top);
  }

  lemma ChainOfOne(links: Links, top: int)
    requires links == map[LONE_BASE := Link(LONE_BASE + 16, KERNEL_LOW)] && Ascends(links, top)
    ensures |Chain(links, LONE_BASE, top)| == 1
  {
    assert Chain(links, LONE_BASE + 16, top) == [];
  }
}

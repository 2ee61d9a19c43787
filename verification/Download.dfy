/**
 Receive-side reassembly: chunk plan, per-byte coverage, resume ranges.

 `Image` is a download's state as a value and `Receive` its transition; the class `Download`
 updates its arrays in place and is proved to perform that transition.
 */
module Reassembly {
  import opened Arithmetic
  import opened Wrappers

  datatype DownloadError =
    | BadPlan(fileLen: nat, chunkLen: nat)
    | OutOfBounds(offset: nat, len: nat, fileLen: nat)

  // ---------- Chunk plan ----------

  datatype ChunkPlan = ChunkPlan(fileLen: nat, chunkLen: nat, chunkCount: nat) {

    /** Plans as `NewPlan` makes them. */
    ghost predicate Valid() {
      fileLen > 0 && chunkLen > 0 && chunkCount == (fileLen + chunkLen - 1) / chunkLen
    }

    function ChunkRange(i: nat): Option<(nat, nat)> {
      if i >= chunkCount then None
      else
        var start := i * chunkLen;
        Some((start, if start + chunkLen <= fileLen then start + chunkLen else fileLen))
    }

    ghost predicate InChunk(i: nat, b: nat) {
      ChunkRange(i).Some? && ChunkRange(i).value.0 <= b < ChunkRange(i).value.1
    }
  }

  function NewPlan(fileLen: nat, chunkLen: nat): (r: Result<ChunkPlan, DownloadError>)
    ensures r.Ok? <==> fileLen > 0 && chunkLen > 0
    ensures r.Err? ==> r.error == BadPlan(fileLen, chunkLen)
    ensures r.Ok? ==> r.value.fileLen == fileLen && r.value.chunkLen == chunkLen
    ensures r.Ok? ==> r.value.Valid() && (r.value.chunkCount - 1) * chunkLen < fileLen <= r.value.chunkCount * chunkLen
  {
    if fileLen == 0 || chunkLen == 0 then Err(BadPlan(fileLen, chunkLen))
    else
      var count := fileLen / chunkLen + if fileLen % chunkLen == 0 then 0 else 1;
      CeilDiv(fileLen, chunkLen);
      Ok(ChunkPlan(fileLen, chunkLen, count))
  }

  /** Both ways of rounding a quotient up agree, and bracket the numerator. */
  lemma CeilDiv(n: nat, d: nat)
    requires d > 0
    ensures var c := n / d + (if n % d == 0 then 0 else 1);
            c == (n + d - 1) / d && (c - 1) * d < n + (if n == 0 then 1 else 0) && n <= c * d
  {
    var q, r := n / d, n % d;
    assert n == q * d + r;
    if r == 0 {
      QuotientIs(n + d - 1, d, q);
    } else {
      QuotientIs(n + d - 1, d, q + 1);
    }
  }

  lemma QuotientIs(n: nat, d: nat, q: nat)
    requires d > 0 && q * d <= n < q * d + d
    ensures n / d == q
  {
    DivIs(n, d, q, n - q * d);
  }

  /** The chunks partition the file: each byte lies in exactly one chunk, the one its offset divides to. */
  lemma ChunksPartition(plan: ChunkPlan, b: nat, i: nat)
    requires plan.Valid() && b < plan.fileLen
    ensures b / plan.chunkLen < plan.chunkCount
    ensures plan.InChunk(i, b) <==> i == b / plan.chunkLen
  {
    ChunkExists(plan, b);
    InMultipleIff(b, plan.chunkLen, i);
    hide ChunkPlan.Valid;
  }

  lemma ChunkExists(plan: ChunkPlan, b: nat)
    requires plan.Valid() && b < plan.fileLen
    ensures b / plan.chunkLen < plan.chunkCount
  {
    var d, n := plan.chunkLen, plan.chunkCount;
    CeilDiv(plan.fileLen, d);
    InMultipleIff(b, d, b / d);
    hide ChunkPlan.Valid;
    MulMono(n, b / d, d);
  }

  lemma InMultipleIff(b: nat, d: nat, i: nat)
    requires d > 0
    ensures i * d <= b < i * d + d <==> i == b / d
  {
    if i * d <= b < i * d + d {
      QuotientIs(b, d, i);
    }
    assert b == d * (b / d) + b % d;
  }

  /** Consecutive chunks abut, none is empty, and the last one ends the file. */
  lemma ChunksTile(plan: ChunkPlan, i: nat)
    requires plan.Valid() && i < plan.chunkCount
    ensures var (s, e) := plan.ChunkRange(i).value;
            && s < e <= plan.fileLen && e - s <= plan.chunkLen
            && (i == 0 ==> s == 0)
            && (if i + 1 < plan.chunkCount then plan.ChunkRange(i + 1).value.0 == e else e == plan.fileLen)
  {
    CeilDiv(plan.fileLen, plan.chunkLen);
    MulMono(i, plan.chunkCount - 1, plan.chunkLen);
    MulMono(i + 1, plan.chunkCount - 1, plan.chunkLen);
    MulMono(plan.chunkCount, i + 1, plan.chunkLen);
    assert (i + 1) * plan.chunkLen == i * plan.chunkLen + plan.chunkLen;
  }

  // ---------- Coverage ----------

  /** Number of covered bytes. */
  function Count(covered: seq<bool>): (n: nat)
    ensures n <= |covered|
  {
    if covered == [] then 0 else (if covered[0] then 1 else 0) + Count(covered[1..])
  }

  lemma CountAppend(a: seq<bool>, b: seq<bool>)
    ensures Count(a + b) == Count(a) + Count(b)
  {
    if a == [] {
      assert a + b == b;
    } else {
      assert (a + b)[1..] == a[1..] + b;
      CountAppend(a[1..], b);
    }
  }

  lemma CountCover(c: seq<bool>, i: nat)
    requires i < |c|
    ensures Count(c[i := true]) == Count(c) + (if c[i] then 0 else 1)
  {
    assert c == c[..i] + ([c[i]] + c[i + 1..]);
    assert c[i := true] == c[..i] + ([true] + c[i + 1..]);
    CountAppend(c[..i], [c[i]] + c[i + 1..]);
    CountAppend(c[..i], [true] + c[i + 1..]);
  }

  /** Everything is covered exactly when the count says so. */
  lemma CountFull(c: seq<bool>)
    ensures Count(c) == |c| <==> forall i :: 0 <= i < |c| ==> c[i]
  {
    if c != [] {
      CountFull(c[1..]);
      assert (forall i :: 0 <= i < |c| ==> c[i]) ==> forall i :: 0 <= i < |c[1..]| ==> c[1..][i];
      if c[0] && forall i :: 0 <= i < |c[1..]| ==> c[1..][i] {
        assert forall i :: 0 < i < |c| ==> c[i] == c[1..][i - 1];
      }
    }
  }

  /** `base` with `patch` written over it at `offset`. */
  function Overlay<T>(base: seq<T>, offset: nat, patch: seq<T>): (r: seq<T>)
    requires offset + |patch| <= |base|
    ensures |r| == |base|
  {
    base[..offset] + patch + base[offset + |patch|..]
  }

  lemma OverlayAt<T>(base: seq<T>, offset: nat, patch: seq<T>)
    requires offset + |patch| <= |base|
    ensures forall i :: 0 <= i < |base| ==>
              Overlay(base, offset, patch)[i] == if offset <= i < offset + |patch| then patch[i - offset] else base[i]
  {
  }

  lemma OverlayExtend<T>(base: seq<T>, offset: nat, patch: seq<T>, x: T)
    requires offset + |patch| < |base|
    ensures Overlay(base, offset, patch + [x]) == Overlay(base, offset, patch)[offset + |patch| := x]
  {
  }

  lemma OverlayNothing<T>(base: seq<T>, offset: nat)
    requires offset <= |base|
    ensures Overlay(base, offset, []) == base
  {
  }

  function Trues(n: nat): (r: seq<bool>)
    ensures |r| == n
  {
    seq(n, _ => true)
  }

  lemma TruesStep(n: nat)
    ensures Trues(0) == [] && Trues(n + 1) == Trues(n) + [true]
  {
  }

  lemma {:induction false} OverlayCovers(c: seq<bool>, offset: nat, n: nat)
    requires offset + n <= |c|
    ensures Count(c) <= Count(Overlay(c, offset, Trues(n)))
    ensures Count(c) == Count(Overlay(c, offset, Trues(n))) ==> Overlay(c, offset, Trues(n)) == c
  {
    if n == 0 {
      assert Overlay(c, offset, Trues(0)) == c;
    } else {
      OverlayCovers(c, offset, n - 1);
      var c' := Overlay(c, offset, Trues(n - 1));
      assert Trues(n) == Trues(n - 1) + [true];
      OverlayExtend(c, offset, Trues(n - 1), true);
      CountCover(c', offset + n - 1);
    }
  }

  // ---------- Receiving ----------

  datatype Image = Image(bytes: seq<Byte>, covered: seq<bool>, received: nat, lastProgress: nat)

  datatype Write = Write(offset: nat, data: seq<Byte>, tick: nat)

  /** What every accepted or refused write keeps. */
  ghost predicate ValidImage(plan: ChunkPlan, d: Image) {
    && |d.bytes| == plan.fileLen && |d.covered| == plan.fileLen
    && d.received == Count(d.covered)
  }

  function Fresh(plan: ChunkPlan, now: nat): (d: Image)
    ensures ValidImage(plan, d)
  {
    NoneCovered(seq(plan.fileLen, _ => false));
    Image(seq(plan.fileLen, _ => 0), seq(plan.fileLen, _ => false), 0, now)
  }

  predicate IsComplete(plan: ChunkPlan, d: Image) {
    d.received == plan.fileLen
  }

  predicate Accepts(plan: ChunkPlan, d: Image, w: Write) {
    !IsComplete(plan, d) && w.offset + |w.data| <= plan.fileLen
  }

  function Receive(plan: ChunkPlan, d: Image, w: Write): (r: Image)
    requires ValidImage(plan, d)
    ensures ValidImage(plan, r)
    ensures !Accepts(plan, d, w) ==> r == d
    ensures w.data == [] ==> r == d
  {
    if !Accepts(plan, d, w) || w.data == [] then d
    else
      var covered := Overlay(d.covered, w.offset, Trues(|w.data|));
      OverlayCovers(d.covered, w.offset, |w.data|);
      var gained := Count(covered) - d.received;
      Image(Overlay(d.bytes, w.offset, w.data), covered,
            d.received + gained, if gained > 0 then w.tick else d.lastProgress)
  }

  /** Some byte is still missing. */
  ghost predicate Missing(c: seq<bool>) {
    exists i :: 0 <= i < |c| && !c[i]
  }

  /** A write is accepted exactly when some byte is still missing and it lies within the file. */
  lemma AcceptsIff(plan: ChunkPlan, d: Image, w: Write)
    requires ValidImage(plan, d)
    ensures Accepts(plan, d, w) <==> Missing(d.covered) && w.offset + |w.data| <= plan.fileLen
    ensures !Missing(d.covered) ==> Receive(plan, d, w) == d
  {
    CountFull(d.covered);
  }

  lemma ReceiveAt(plan: ChunkPlan, d: Image, w: Write, i: nat)
    requires ValidImage(plan, d) && i < plan.fileLen
    ensures var d' := Receive(plan, d, w);
            if Accepts(plan, d, w) && Touches(w, i)
            then d'.covered[i] && d'.bytes[i] == w.data[i - w.offset]
            else d'.covered[i] == d.covered[i] && d'.bytes[i] == d.bytes[i]
  {
    if Accepts(plan, d, w) {
      OverlayAt(d.bytes, w.offset, w.data);
      OverlayAt(d.covered, w.offset, Trues(|w.data|));
    }
  }

  /** Progress is made, and its tick noted, exactly when a write that fits reaches a byte not covered before. */
  lemma ProgressIffFresh(plan: ChunkPlan, d: Image, w: Write)
    requires ValidImage(plan, d)
    ensures var d' := Receive(plan, d, w);
            && (d'.received > d.received <==>
                  Accepts(plan, d, w) && exists i :: 0 <= i < plan.fileLen && Touches(w, i) && !d.covered[i])
            && d'.lastProgress == (if d'.received > d.received then w.tick else d.lastProgress)
  {
    if Accepts(plan, d, w) && w.data != [] {
      OverlayCovers(d.covered, w.offset, |w.data|);
      OverlayAt(d.covered, w.offset, Trues(|w.data|));
      var covered := Overlay(d.covered, w.offset, Trues(|w.data|));
      if i :| 0 <= i < plan.fileLen && Touches(w, i) && !d.covered[i] {
        assert covered[i] && covered != d.covered;
      } else {
        assert covered == d.covered;
      }
    }
  }

  lemma NoneCovered(c: seq<bool>)
    requires forall i :: 0 <= i < |c| ==> !c[i]
    ensures Count(c) == 0
  {
  }

  // ---------- Runs ----------

  function Run(plan: ChunkPlan, d: Image, ws: seq<Write>): (r: Image)
    requires ValidImage(plan, d)
    ensures ValidImage(plan, r)
    decreases |ws|
  {
    if ws == [] then d else Run(plan, Receive(plan, d, ws[0]), ws[1..])
  }

  /** Which of a sequence of writes are accepted. */
  function Accepted(plan: ChunkPlan, d: Image, ws: seq<Write>): seq<Write>
    requires ValidImage(plan, d)
    decreases |ws|
  {
    if ws == [] then []
    else (if Accepts(plan, d, ws[0]) then [ws[0]] else []) + Accepted(plan, Receive(plan, d, ws[0]), ws[1..])
  }

  predicate Touches(w: Write, i: nat) {
    w.offset <= i < w.offset + |w.data|
  }

  /** The byte the last of `ws` to touch `i` puts there, if any does. */
  function LastByte(ws: seq<Write>, i: nat): Option<Byte> {
    if ws == [] then None
    else if LastByte(ws[1..], i).Some? then LastByte(ws[1..], i)
    else if Touches(ws[0], i) then Some(ws[0].data[i - ws[0].offset])
    else None
  }

  /**
   Exact reassembly, for any order and overlap of writes: a byte is covered exactly when an accepted
   write touched it (or it was covered before), and then it holds what the last of those wrote.
   */
  lemma {:induction false} LastWriteWins(plan: ChunkPlan, d: Image, ws: seq<Write>, i: nat)
    requires ValidImage(plan, d) && i < plan.fileLen
    ensures var last := LastByte(Accepted(plan, d, ws), i);
            var r := Run(plan, d, ws);
            && r.covered[i] == (d.covered[i] || last.Some?)
            && r.bytes[i] == if last.Some? then last.value else d.bytes[i]
    decreases |ws|
  {
    if ws != [] {
      var d' := Receive(plan, d, ws[0]);
      LastWriteWins(plan, d', ws[1..], i);
      if Accepts(plan, d, ws[0]) {
        ReceiveAt(plan, d, ws[0], i);
        var rest := Accepted(plan, d', ws[1..]);
        assert ([ws[0]] + rest)[1..] == rest;
        assert Accepted(plan, d, ws) == [ws[0]] + rest;
      } else {
        assert Accepted(plan, d, ws) == Accepted(plan, d', ws[1..]);
      }
    }
  }

  /** A write whose bytes, as far as they fit, are those of the file. */
  ghost predicate SliceOf(w: Write, file: seq<Byte>) {
    w.offset + |w.data| <= |file| ==> w.data == file[w.offset..w.offset + |w.data|]
  }

  lemma {:induction false} CoveredBytesAreRight(plan: ChunkPlan, d: Image, ws: seq<Write>, file: seq<Byte>)
    requires ValidImage(plan, d) && |file| == plan.fileLen
    requires forall w :: w in ws ==> SliceOf(w, file)
    requires forall i :: 0 <= i < |file| && d.covered[i] ==> d.bytes[i] == file[i]
    ensures var r := Run(plan, d, ws); forall i :: 0 <= i < |file| && r.covered[i] ==> r.bytes[i] == file[i]
    decreases |ws|
  {
    if ws != [] {
      assert ws[0] in ws;
      var d' := Receive(plan, d, ws[0]);
      forall i | 0 <= i < |file|
        ensures d'.covered[i] ==> d'.bytes[i] == file[i]
      {
        ReceiveAt(plan, d, ws[0], i);
      }
      CoveredBytesAreRight(plan, d', ws[1..], file);
    }
  }

  function Assembled(plan: ChunkPlan, d: Image): Option<seq<Byte>> {
    if IsComplete(plan, d) then Some(d.bytes) else None
  }

  /** Once there, the assembled file is final: nothing that is written later changes it, nor anything else. */
  lemma {:induction false} AssembledIsFinal(plan: ChunkPlan, d: Image, ws: seq<Write>)
    requires ValidImage(plan, d) && Assembled(plan, d).Some?
    ensures Run(plan, d, ws) == d && Accepted(plan, d, ws) == []
    decreases |ws|
  {
    hide Receive;
    if ws != [] {
      CountFull(d.covered);
      AcceptsIff(plan, d, ws[0]);
      AssembledIsFinal(plan, d, ws[1..]);
    }
  }

  /** When every write is a slice of one file, what is assembled can only be that file. */
  lemma AssembledIsTheFile(plan: ChunkPlan, now: nat, ws: seq<Write>, file: seq<Byte>)
    requires |file| == plan.fileLen
    requires forall w :: w in ws ==> SliceOf(w, file)
    ensures var r := Run(plan, Fresh(plan, now), ws);
            Assembled(plan, r) == if forall i :: 0 <= i < plan.fileLen ==> r.covered[i] then Some(file) else None
  {
    var r := Run(plan, Fresh(plan, now), ws);
    CoveredBytesAreRight(plan, Fresh(plan, now), ws, file);
    CountFull(r.covered);
    if forall i :: 0 <= i < plan.fileLen ==> r.covered[i] {
      assert r.bytes == file;
    }
  }

  // ---------- Resume ranges ----------

  type Span = (nat, nat)

  /** A maximal run of absent bytes. */
  ghost predicate IsGap(c: seq<bool>, r: Span) {
    && r.1 > 0 && r.0 + r.1 <= |c|
    && (forall i :: r.0 <= i < r.0 + r.1 ==> !c[i])
    && (r.0 > 0 ==> c[r.0 - 1])
    && (r.0 + r.1 < |c| ==> c[r.0 + r.1])
  }

  /** The ascending list of all maximal runs of absent bytes. */
  ghost predicate AreGaps(c: seq<bool>, rs: seq<Span>) {
    && (forall k :: 0 <= k < |rs| ==> IsGap(c, rs[k]))
    && (forall j, k :: 0 <= j < k < |rs| ==> rs[j].0 + rs[j].1 < rs[k].0)
    && (forall i :: 0 <= i < |c| && !c[i] ==> exists k :: 0 <= k < |rs| && rs[k].0 <= i < rs[k].0 + rs[k].1)
  }

  function TotalLen(rs: seq<Span>): nat {
    if rs == [] then 0 else rs[0].1 + TotalLen(rs[1..])
  }

  /** There is only one such list, so a coverage map determines its shopping list. */
  lemma GapsAreUnique(c: seq<bool>, rs: seq<Span>, ss: seq<Span>)
    requires AreGaps(c, rs) && AreGaps(c, ss)
    ensures rs == ss
  {
    hide IsGap;
    forall r: Span
      ensures r in rs <==> r in ss
    {
      if r in rs {
        GapIsListed(c, rs, ss, r);
      }
      if r in ss {
        GapIsListed(c, ss, rs, r);
      }
    }
    AscendingListsAgree(rs, ss);
  }

  lemma GapIsListed(c: seq<bool>, rs: seq<Span>, ss: seq<Span>, r: Span)
    requires AreGaps(c, rs) && AreGaps(c, ss) && r in rs
    ensures r in ss
  {
    assert IsGap(c, r) && !c[r.0];
    var k :| 0 <= k < |ss| && ss[k].0 <= r.0 < ss[k].0 + ss[k].1;
    SameGap(c, r, ss[k], r.0);
  }

  ghost predicate Ascending(rs: seq<Span>) {
    forall j, k :: 0 <= j < k < |rs| ==> rs[j].0 < rs[k].0
  }

  lemma {:induction false} AscendingListsAgree(rs: seq<Span>, ss: seq<Span>)
    requires Ascending(rs) && Ascending(ss)
    requires forall r :: r in rs <==> r in ss
    ensures rs == ss
  {
    if rs == [] {
      assert forall k :: 0 <= k < |ss| ==> ss[k] in ss;
    } else {
      assert rs[0] in rs;
      var k :| 0 <= k < |ss| && ss[k] == rs[0];
      assert ss[0] in ss;
      var j :| 0 <= j < |rs| && rs[j] == ss[0];
      assert rs[0] == ss[0];
      forall r: Span
        ensures r in rs[1..] <==> r in ss[1..]
      {
        assert r in rs[1..] <==> r in rs && r != rs[0];
        assert r in ss[1..] <==> r in ss && r != ss[0];
      }
      AscendingListsAgree(rs[1..], ss[1..]);
      assert rs == [rs[0]] + rs[1..] && ss == [ss[0]] + ss[1..];
    }
  }

  lemma SameGap(c: seq<bool>, r: Span, s: Span, i: nat)
    requires IsGap(c, r) && IsGap(c, s)
    requires r.0 <= i < r.0 + r.1 && s.0 <= i < s.0 + s.1
    ensures r == s
  {
  }

  /** One write per resume range. */
  function Requests(rs: seq<Span>, file: seq<Byte>, tick: nat): seq<Write>
    requires forall k :: 0 <= k < |rs| ==> rs[k].0 + rs[k].1 <= |file|
  {
    seq(|rs|, k requires 0 <= k < |rs| => Write(rs[k].0, file[rs[k].0..rs[k].0 + rs[k].1], tick))
  }

  lemma {:induction false} RunKeepsCoverage(plan: ChunkPlan, d: Image, ws: seq<Write>, i: nat)
    requires ValidImage(plan, d) && i < plan.fileLen
    requires d.covered[i] || exists w :: w in ws && Touches(w, i) && w.offset + |w.data| <= plan.fileLen
    ensures Run(plan, d, ws).covered[i]
    decreases |ws|
  {
    if ws != [] {
      var d' := Receive(plan, d, ws[0]);
      ReceiveAt(plan, d, ws[0], i);
      if !d'.covered[i] {
        if IsComplete(plan, d) {
          CountFull(d.covered);
          assert false;
        }
        var w :| w in ws && Touches(w, i) && w.offset + |w.data| <= plan.fileLen;
        assert w != ws[0];
        assert w in ws[1..];
      }
      RunKeepsCoverage(plan, d', ws[1..], i);
    }
  }

  lemma RequestsCover(plan: ChunkPlan, d: Image, rs: seq<Span>, file: seq<Byte>, tick: nat, i: nat)
    requires ValidImage(plan, d) && AreGaps(d.covered, rs) && |file| == plan.fileLen && i < plan.fileLen
    requires forall k :: 0 <= k < |rs| ==> rs[k].0 + rs[k].1 <= |file|
    ensures Run(plan, d, Requests(rs, file, tick)).covered[i]
  {
    var ws := Requests(rs, file, tick);
    if !d.covered[i] {
      var k :| 0 <= k < |rs| && rs[k].0 <= i < rs[k].0 + rs[k].1;
      assert ws[k] in ws && Touches(ws[k], i);
    }
    hide AreGaps, Run, Requests;
    RunKeepsCoverage(plan, d, ws, i);
  }

  lemma RequestsAreSlices(rs: seq<Span>, file: seq<Byte>, tick: nat)
    requires forall k :: 0 <= k < |rs| ==> rs[k].0 + rs[k].1 <= |file|
    ensures forall w :: w in Requests(rs, file, tick) ==> SliceOf(w, file)
  {
  }

  lemma RequestsComplete(plan: ChunkPlan, d: Image, rs: seq<Span>, file: seq<Byte>, tick: nat)
    requires ValidImage(plan, d) && AreGaps(d.covered, rs) && |file| == plan.fileLen
    requires forall i :: 0 <= i < |file| && d.covered[i] ==> d.bytes[i] == file[i]
    ensures forall k :: 0 <= k < |rs| ==> rs[k].0 + rs[k].1 <= |file|
    ensures Assembled(plan, Run(plan, d, Requests(rs, file, tick))) == Some(file)
  {
    assert forall k :: 0 <= k < |rs| ==> IsGap(d.covered, rs[k]) && rs[k].0 + rs[k].1 <= |file|;
    hide AreGaps, IsGap, Run, Count, Requests, SliceOf;
    RequestsAreSlices(rs, file, tick);
    var ws := Requests(rs, file, tick);
    var r := Run(plan, d, ws);
    forall i | 0 <= i < plan.fileLen
      ensures r.covered[i]
    {
      RequestsCover(plan, d, rs, file, tick, i);
    }
    CountFull(r.covered);
    CoveredBytesAreRight(plan, d, ws, file);
    assert r.bytes == file;
  }

  /** Resuming works: fetching exactly the missing ranges of an interrupted download yields the file. */
  lemma ResumeCompletes(plan: ChunkPlan, now: nat, before: seq<Write>, rs: seq<Span>, file: seq<Byte>, tick: nat)
    requires |file| == plan.fileLen
    requires forall w :: w in before ==> SliceOf(w, file)
    requires AreGaps(Run(plan, Fresh(plan, now), before).covered, rs)
    ensures forall k :: 0 <= k < |rs| ==> rs[k].0 + rs[k].1 <= |file|
    ensures var d := Run(plan, Fresh(plan, now), before);
            Assembled(plan, Run(plan, d, Requests(rs, file, tick))) == Some(file)
  {
    CoveredBytesAreRight(plan, Fresh(plan, now), before, file);
    RequestsComplete(plan, Run(plan, Fresh(plan, now), before), rs, file, tick);
  }

  // ---------- Complete chunks ----------

  ghost predicate ChunkDone(plan: ChunkPlan, c: seq<bool>, i: nat)
    requires plan.Valid() && |c| == plan.fileLen
  {
    forall b :: 0 <= b < |c| && plan.InChunk(i, b) ==> c[b]
  }

  ghost function DoneBelow(plan: ChunkPlan, c: seq<bool>, n: nat): (k: nat)
    requires plan.Valid() && |c| == plan.fileLen
    ensures k <= n
    ensures k == n <==> forall i :: 0 <= i < n ==> ChunkDone(plan, c, i)
  {
    if n == 0 then 0 else DoneBelow(plan, c, n - 1) + if ChunkDone(plan, c, n - 1) then 1 else 0
  }

  /** The byte count and the chunk count agree on completion. */
  lemma CompleteMeansAllChunks(plan: ChunkPlan, d: Image)
    requires plan.Valid() && ValidImage(plan, d)
    ensures IsComplete(plan, d) <==> DoneBelow(plan, d.covered, plan.chunkCount) == plan.chunkCount
  {
    assert plan.chunkLen > 0;
    hide ChunkPlan.Valid, ChunkPlan.InChunk, DoneBelow, Count;
    CountFull(d.covered);
    if forall i :: 0 <= i < plan.chunkCount ==> ChunkDone(plan, d.covered, i) {
      forall b | 0 <= b < plan.fileLen
        ensures d.covered[b]
      {
        ChunksPartition(plan, b, b / plan.chunkLen);
        assert ChunkDone(plan, d.covered, b / plan.chunkLen);
      }
    }
  }

  // ---------- Scanning for gaps ----------

  function Flush(out: seq<Span>, run: Option<Span>): seq<Span> {
    if run.Some? then out + [run.value] else out
  }

  /** After the prefix `c`, the closed gaps and the open one account for all of it. */
  ghost predicate ScanInv(c: seq<bool>, out: seq<Span>, run: Option<Span>) {
    && AreGaps(c, Flush(out, run))
    && (run.Some? <==> |c| > 0 && !c[|c| - 1])
    && (run.Some? ==> run.value.0 + run.value.1 == |c|)
    && TotalLen(Flush(out, run)) == |c| - Count(c)
  }

  lemma ScanStart()
    ensures ScanInv([], [], None)
  {
  }

  lemma ScanEnd(c: seq<bool>, out: seq<Span>, run: Option<Span>)
    requires ScanInv(c, out, run)
    ensures AreGaps(c, Flush(out, run)) && TotalLen(Flush(out, run)) == |c| - Count(c)
  {
  }

  lemma ScanCovered(c: seq<bool>, out: seq<Span>, run: Option<Span>)
    requires ScanInv(c, out, run)
    ensures ScanInv(c + [true], Flush(out, run), None)
  {
    GapsThenCovered(c, Flush(out, run));
    CountAppend(c, [true]);
  }

  lemma ScanAbsent(c: seq<bool>, out: seq<Span>, run: Option<Span>)
    requires ScanInv(c, out, run)
    ensures ScanInv(c + [false], out, Some(if run.Some? then (run.value.0, run.value.1 + 1) else (|c|, 1)))
  {
    hide AreGaps;
    CountAppend(c, [false]);
    if run.Some? {
      GapGrows(c, out, run.value);
      TotalLenLast(out, run.value);
      TotalLenLast(out, (run.value.0, run.value.1 + 1));
    } else {
      GapOpens(c, out);
      TotalLenLast(out, (|c|, 1));
    }
  }

  // ---------- The object ----------

  class Download {
    const plan: ChunkPlan
    const bytes: array<Byte>
    const covered: array<bool>
    var received: nat
    var lastProgress: nat

    ghost function State(): Image
      reads this, bytes, covered
    {
      Image(bytes[..], covered[..], received, lastProgress)
    }

    ghost predicate Valid()
      reads this, bytes, covered
    {
      plan.Valid() && ValidImage(plan, State())
    }

    constructor (plan: ChunkPlan, now: nat)
      requires plan.Valid()
      ensures Valid() && this.plan == plan && State() == Fresh(plan, now)
      ensures fresh(bytes) && fresh(covered)
    {
      this.plan := plan;
      bytes := new Byte[plan.fileLen](_ => 0);
      covered := new bool[plan.fileLen](_ => false);
      received, lastProgress := 0, now;
      new;
      assert State() == Fresh(plan, now);
    }

    method ReceiveBytes(offset: nat, data: seq<Byte>, now: nat) returns (r: Result<(), DownloadError>)
      requires Valid()
      modifies this, bytes, covered
      ensures Valid()
      ensures State() == Receive(plan, old(State()), Write(offset, data, now))
      ensures r == if Missing(old(covered[..])) && offset + |data| <= plan.fileLen then Ok(())
                   else Err(OutOfBounds(offset, |data|, plan.fileLen))
      ensures !Missing(old(covered[..])) ==> State() == old(State())
    {
      hide ChunkPlan.Valid;
      AcceptsIff(plan, State(), Write(offset, data, now));
      if received == plan.fileLen {
        return Err(OutOfBounds(offset, |data|, plan.fileLen));
      }
      var end := offset + |data|;
      if end > plan.fileLen {
        return Err(OutOfBounds(offset, |data|, plan.fileLen));
      }
      if data == [] {
        return Ok(());
      }
      var gained := Store(offset, data);
      OverlayCovers(old(State()).covered, offset, |data|);
      if gained > 0 {
        received := received + gained;
        lastProgress := now;
      }
      return Ok(());
    }

    /** The byte loop of a receive: store every byte, counting those not covered before. */
    method Store(offset: nat, data: seq<Byte>) returns (gained: int)
      requires ValidImage(plan, State()) && offset + |data| <= plan.fileLen
      modifies bytes, covered
      ensures bytes[..] == Overlay(old(bytes[..]), offset, data)
      ensures covered[..] == Overlay(old(covered[..]), offset, Trues(|data|))
      ensures gained == Count(covered[..]) - Count(old(covered[..]))
    {
      hide Overlay, Count, Trues;
      gained := 0;
      ghost var b, c := bytes[..], covered[..];
      OverlayNothing(b, offset);
      OverlayNothing(c, offset);
      TruesStep(0);
      for i := 0 to |data|
        invariant bytes[..] == Overlay(b, offset, data[..i])
        invariant covered[..] == Overlay(c, offset, Trues(i))
        invariant gained == Count(covered[..]) - Count(c)
      {
        var at := offset + i;
        assert data[..i + 1] == data[..i] + [data[i]];
        TruesStep(i);
        OverlayExtend(b, offset, data[..i], data[i]);
        OverlayExtend(c, offset, Trues(i), true);
        CountCover(covered[..], at);
        bytes[at] := data[i];
        if !covered[at] {
          covered[at] := true;
          gained := gained + 1;
        }
      }
      assert data[..|data|] == data;
    }

    /** What is left to fetch: one pass over the coverage, closing a gap at each covered byte. */
    method MissingRanges() returns (out: seq<Span>)
      requires Valid()
      ensures AreGaps(covered[..], out)
      ensures TotalLen(out) == plan.fileLen - received
    {
      hide ScanInv;
      out := [];
      var run: Option<Span> := None;
      ScanStart();
      for i := 0 to covered.Length
        invariant ScanInv(covered[..i], out, run)
      {
        assert covered[..i + 1] == covered[..i] + [covered[i]];
        if covered[i] {
          ScanCovered(covered[..i], out, run);
          if run.Some? {
            out := out + [run.value];
            run := None;
          }
        } else {
          ScanAbsent(covered[..i], out, run);
          run := match run
                 case Some((s, l)) => Some((s, l + 1))
                 case None => Some((i, 1));
        }
      }
      assert covered[..covered.Length] == covered[..];
      ScanEnd(covered[..], out, run);
      if run.Some? {
        out := out + [run.value];
      }
    }

    method CompleteChunks() returns (n: nat)
      requires Valid()
      ensures n == DoneBelow(plan, covered[..], plan.chunkCount)
      ensures n == plan.chunkCount <==> IsComplete(plan, State())
    {
      n := 0;
      for i := 0 to plan.chunkCount
        invariant n == DoneBelow(plan, covered[..], i)
      {
        var all := ChunkIsDone(i);
        if all {
          n := n + 1;
        }
      }
      CompleteMeansAllChunks(plan, State());
    }

    /** The inner loop over the bytes of one chunk. */
    method ChunkIsDone(i: nat) returns (all: bool)
      requires Valid() && i < plan.chunkCount
      ensures all == ChunkDone(plan, covered[..], i)
    {
      ChunksTile(plan, i);
      var (s, e) := plan.ChunkRange(i).value;
      all := true;
      for b := s to e
        invariant all == forall j :: s <= j < b ==> covered[j]
      {
        all := all && covered[b];
      }
    }

    method AssembledBytes() returns (r: Option<seq<Byte>>)
      requires Valid()
      ensures r == Assembled(plan, State())
    {
      r := if received == plan.fileLen then Some(bytes[..]) else None;
    }
  }

  lemma TotalLenLast(rs: seq<Span>, r: Span)
    ensures TotalLen(rs + [r]) == TotalLen(rs) + r.1
  {
    if rs != [] {
      assert (rs + [r])[1..] == rs[1..] + [r];
      TotalLenLast(rs[1..], r);
    }
  }

  lemma GapsThenCovered(c: seq<bool>, rs: seq<Span>)
    requires AreGaps(c, rs)
    ensures AreGaps(c + [true], rs)
  {
    forall k | 0 <= k < |rs|
      ensures IsGap(c + [true], rs[k])
    {
      assert IsGap(c, rs[k]);
    }
  }

  lemma GapGrows(c: seq<bool>, out: seq<Span>, r: Span)
    requires AreGaps(c, out + [r]) && r.0 + r.1 == |c|
    ensures AreGaps(c + [false], out + [(r.0, r.1 + 1)])
  {
    var rs, rs', c' := out + [r], out + [(r.0, r.1 + 1)], c + [false];
    forall k | 0 <= k < |rs'|
      ensures IsGap(c', rs'[k])
    {
      assert IsGap(c, rs[k]);
      if k < |out| {
        assert rs[k].0 + rs[k].1 < rs[|out|].0;
      }
      GapThenAbsent(c, rs[k]);
    }
    hide IsGap;
    forall i | 0 <= i < |c'| && !c'[i]
      ensures exists k :: 0 <= k < |rs'| && rs'[k].0 <= i < rs'[k].0 + rs'[k].1
    {
      if i == |c| {
        assert rs'[|out|].0 <= i < rs'[|out|].0 + rs'[|out|].1;
      } else {
        var k :| 0 <= k < |rs| && rs[k].0 <= i < rs[k].0 + rs[k].1;
        assert rs'[k].0 <= i < rs'[k].0 + rs'[k].1;
      }
    }
    forall j, k | 0 <= j < k < |rs'|
      ensures rs'[j].0 + rs'[j].1 < rs'[k].0
    {
      assert rs[j].0 + rs[j].1 < rs[k].0;
    }
  }

  /** A byte that is absent too extends a gap at the end and leaves any other alone. */
  lemma GapThenAbsent(c: seq<bool>, r: Span)
    requires IsGap(c, r)
    ensures IsGap(c + [false], if r.0 + r.1 == |c| then (r.0, r.1 + 1) else r)
  {
  }

  lemma GapOpens(c: seq<bool>, out: seq<Span>)
    requires AreGaps(c, out) && (|c| > 0 ==> c[|c| - 1])
    ensures AreGaps(c + [false], out + [(|c|, 1)])
  {
    var rs', c' := out + [(|c|, 1)], c + [false];
    forall k | 0 <= k < |rs'|
      ensures IsGap(c', rs'[k]) && (k < |out| ==> rs'[k].0 + rs'[k].1 < |c|)
    {
      if k < |out| {
        assert IsGap(c, out[k]);
        assert out[k].0 + out[k].1 - 1 != |c| - 1;
      }
    }
    forall i | 0 <= i < |c'| && !c'[i]
      ensures exists k :: 0 <= k < |rs'| && rs'[k].0 <= i < rs'[k].0 + rs'[k].1
    {
      if i == |c| {
        assert rs'[|out|].0 <= i < rs'[|out|].0 + rs'[|out|].1;
      } else {
        var k :| 0 <= k < |out| && out[k].0 <= i < out[k].0 + out[k].1;
        assert rs'[k].0 <= i < rs'[k].0 + rs'[k].1;
      }
    }
  }
}

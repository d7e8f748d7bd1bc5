/** The encoder's descent on one region's endpoints. The error of a pair of endpoints is any function to naturals. */
module EndpointSearch {
  import opened Endpoints

  function Set(c: INTColor, ch: nat, v: int): INTColor {
    if ch == 0 then c.(r := v) else if ch == 1 then c.(g := v) else c.(b := v)
  }

  // One channel of one end.
  function GetEnd(e: EndPntPair, ch: nat, do_b: nat): int {
    if do_b == 0 then Channel(e.A, ch) else Channel(e.B, ch)
  }

  function SetEnd(e: EndPntPair, ch: nat, do_b: nat, v: int): (r: EndPntPair)
    ensures ch < 3 ==> GetEnd(r, ch, do_b) == v
  {
    if do_b == 0 then e.(A := Set(e.A, ch, v)) else e.(B := Set(e.B, ch, v))
  }

  // The pairs differ at most in the chosen channel and end.
  ghost predicate OnlyMoved(e: EndPntPair, e': EndPntPair, ch: nat, do_b: nat) {
    e' == SetEnd(e, ch, do_b, GetEnd(e', ch, do_b))
  }

  // A search that improved on the error it was given moved one component, within range, to exactly that error;
  // otherwise it moved nothing.
  ghost predicate Improves(e: EndPntPair, e': EndPntPair, err: nat, err': nat, error: EndPntPair -> nat,
                           uPrec: nat, ch: nat, do_b: nat) {
    && err' <= err && OnlyMoved(e, e', ch, do_b)
    && (err' < err ==> err' == error(e') && 0 <= GetEnd(e', ch, do_b) < Two(uPrec))
    && (err' == err ==> e' == e)
  }

  lemma SetAgain(e: EndPntPair, ch: nat, do_b: nat, v: int, w: int)
    requires ch < 3
    ensures SetEnd(SetEnd(e, ch, do_b, v), ch, do_b, w) == SetEnd(e, ch, do_b, w)
    ensures SetEnd(e, ch, do_b, GetEnd(e, ch, do_b)) == e
  {}

  // Neither neighbour at the given distance, if in range, is better than the error found.
  ghost predicate Neighbours(error: EndPntPair -> nat, uPrec: nat, ch: nat, endPts: EndPntPair, do_b: nat, step: int,
                             fMinErr: nat) {
    var at := GetEnd(endPts, ch, do_b);
    && (0 <= at - step < Two(uPrec) ==> fMinErr <= error(SetEnd(endPts, ch, do_b, at - step)))
    && (0 <= at + step < Two(uPrec) ==> fMinErr <= error(SetEnd(endPts, ch, do_b, at + step)))
  }

  // No step of a power of two, from 2^k up to half the range, is better.
  ghost predicate Stuck(error: EndPntPair -> nat, uPrec: nat, ch: nat, endPts: EndPntPair, do_b: nat, fMinErr: nat, k: nat) {
    forall j: nat :: k <= j < uPrec ==> Neighbours(error, uPrec, ch, endPts, do_b, Two(j), fMinErr)
  }

  // ---- the search as a function of endpoints and their error ----

  // Tries one value of the component against the best so far.
  function Tried(error: EndPntPair -> nat, uPrec: nat, ch: nat, do_b: nat, e: EndPntPair, v: int, best: (EndPntPair, nat))
    : (EndPntPair, nat)
  {
    var tmp := SetEnd(e, ch, do_b, v);
    if 0 <= v < Two(uPrec) && error(tmp) < best.1 then (tmp, error(tmp)) else best
  }

  // One step size: down, then up.
  function Moved(error: EndPntPair -> nat, uPrec: nat, ch: nat, do_b: nat, step: int, s: (EndPntPair, nat)): (EndPntPair, nat) {
    var at := GetEnd(s.0, ch, do_b);
    Tried(error, uPrec, ch, do_b, s.0, at + step, Tried(error, uPrec, ch, do_b, s.0, at - step, s))
  }

  // Steps of 2^(k - 1), 2^(k - 2), down to one.
  function Perturb(error: EndPntPair -> nat, uPrec: nat, ch: nat, do_b: nat, k: nat, s: (EndPntPair, nat)): (EndPntPair, nat) {
    if k == 0 then s else Perturb(error, uPrec, ch, do_b, k - 1, Moved(error, uPrec, ch, do_b, Two(k - 1), s))
  }

  // Takes over one component of an improved pair.
  function Adopt(opt: EndPntPair, from: EndPntPair, ch: nat, do_b: nat): EndPntPair {
    SetEnd(opt, ch, do_b, GetEnd(from, ch, do_b))
  }

  // One end after the other, until a search does not help.
  function Alternating(error: EndPntPair -> nat, uPrec: nat, ch: nat, do_b: nat, s: (EndPntPair, nat)): (EndPntPair, nat)
    requires do_b < 2
    decreases s.1
  {
    var n := Perturb(error, uPrec, ch, do_b, uPrec, s);
    if n.1 >= s.1 then s else Alternating(error, uPrec, ch, 1 - do_b, (Adopt(s.0, n.0, ch, do_b), n.1))
  }

  // One channel, starting with the end that gains more.
  function ChannelOptimized(error: EndPntPair -> nat, uPrec: nat, ch: nat, s: (EndPntPair, nat)): (EndPntPair, nat) {
    var a, b := Perturb(error, uPrec, ch, 0, uPrec, s), Perturb(error, uPrec, ch, 1, uPrec, s);
    if a.1 < b.1 then
      if a.1 >= s.1 then s else Alternating(error, uPrec, ch, 1, (Adopt(s.0, a.0, ch, 0), a.1))
    else if b.1 >= s.1 then s
    else Alternating(error, uPrec, ch, 0, (Adopt(s.0, b.0, ch, 1), b.1))
  }

  function ChannelsOptimized(error: EndPntPair -> nat, uPrec: nat -> nat, n: nat, s: (EndPntPair, nat)): (EndPntPair, nat) {
    if n == 0 then s else ChannelOptimized(error, uPrec(n - 1), n - 1, ChannelsOptimized(error, uPrec, n - 1, s))
  }

  // ---- what the search finds ----

  // The best of a pair and its neighbours at one distance: the pair itself unless one is better, the lower one on a tie.
  ghost predicate IsBest(error: EndPntPair -> nat, uPrec: nat, ch: nat, do_b: nat, step: int, s: (EndPntPair, nat),
                         t: (EndPntPair, nat)) {
    var at := GetEnd(s.0, ch, do_b);
    var down, up := SetEnd(s.0, ch, do_b, at - step), SetEnd(s.0, ch, do_b, at + step);
    && t.1 <= s.1 && (t.1 == s.1 ==> t == s) && Neighbours(error, uPrec, ch, s.0, do_b, step, t.1)
    && (t.1 < s.1 ==> t.1 == error(t.0) && ((t.0 == down && 0 <= at - step < Two(uPrec)) || (t.0 == up && 0 <= at + step < Two(uPrec))))
    && (t.1 < s.1 && 0 <= at - step < Two(uPrec) && error(down) == t.1 ==> t.0 == down)
  }

  lemma MovedIsBest(error: EndPntPair -> nat, uPrec: nat, ch: nat, do_b: nat, step: int, s: (EndPntPair, nat))
    requires step > 0
    ensures IsBest(error, uPrec, ch, do_b, step, s, Moved(error, uPrec, ch, do_b, step, s))
  {}

  // The search goes through the best pairs at every distance, from half the range down to one.
  lemma {:induction false} PerturbPath(error: EndPntPair -> nat, uPrec: nat, ch: nat, do_b: nat, k: nat, s: (EndPntPair, nat))
    returns (path: seq<(EndPntPair, nat)>)
    ensures |path| == k + 1 && path[k] == s && path[0] == Perturb(error, uPrec, ch, do_b, k, s)
    ensures forall j :: 0 <= j < k ==> IsBest(error, uPrec, ch, do_b, Two(j), path[j + 1], path[j])
  {
    if k == 0 {
      path := [s];
    } else {
      MovedIsBest(error, uPrec, ch, do_b, Two(k - 1), s);
      path := PerturbPath(error, uPrec, ch, do_b, k - 1, Moved(error, uPrec, ch, do_b, Two(k - 1), s));
      path := path + [s];
    }
  }

  lemma MovedImproves(error: EndPntPair -> nat, uPrec: nat, ch: nat, do_b: nat, step: int, s0: (EndPntPair, nat), s: (EndPntPair, nat))
    requires ch < 3 && step > 0 && Improves(s0.0, s.0, s0.1, s.1, error, uPrec, ch, do_b)
    ensures var t := Moved(error, uPrec, ch, do_b, step, s);
      t.1 <= s.1 && Improves(s0.0, t.0, s0.1, t.1, error, uPrec, ch, do_b)
  {
    var at := GetEnd(s.0, ch, do_b);
    SetAgain(s0.0, ch, do_b, at, at - step);
    SetAgain(s0.0, ch, do_b, at, at + step);
  }

  lemma {:induction false} PerturbImproves(error: EndPntPair -> nat, uPrec: nat, ch: nat, do_b: nat, k: nat,
                                           s0: (EndPntPair, nat), s: (EndPntPair, nat))
    requires ch < 3 && k <= uPrec && Improves(s0.0, s.0, s0.1, s.1, error, uPrec, ch, do_b)
    requires s.1 == s0.1 ==> Stuck(error, uPrec, ch, s0.0, do_b, s0.1, k)
    ensures var t := Perturb(error, uPrec, ch, do_b, k, s);
      Improves(s0.0, t.0, s0.1, t.1, error, uPrec, ch, do_b) && (t.1 == s0.1 ==> Stuck(error, uPrec, ch, s0.0, do_b, s0.1, 0))
  {
    if k > 0 {
      MovedIsBest(error, uPrec, ch, do_b, Two(k - 1), s);
      MovedImproves(error, uPrec, ch, do_b, Two(k - 1), s0, s);
      PerturbImproves(error, uPrec, ch, do_b, k - 1, s0, Moved(error, uPrec, ch, do_b, Two(k - 1), s));
    }
  }

  lemma PerturbFinds(error: EndPntPair -> nat, uPrec: nat, ch: nat, do_b: nat, s: (EndPntPair, nat))
    requires ch < 3
    ensures var t := Perturb(error, uPrec, ch, do_b, uPrec, s);
      && Improves(s.0, t.0, s.1, t.1, error, uPrec, ch, do_b) && Adopt(s.0, t.0, ch, do_b) == t.0
      && (t.1 == s.1 ==> Stuck(error, uPrec, ch, s.0, do_b, s.1, 0))
  {
    SetAgain(s.0, ch, do_b, 0, 0);
    PerturbImproves(error, uPrec, ch, do_b, uPrec, s, s);
  }

  // One end of the channel cannot be improved by a single step of the search.
  ghost predicate HasStuckEnd(error: EndPntPair -> nat, uPrec: nat, ch: nat, e: EndPntPair, err: nat) {
    Stuck(error, uPrec, ch, e, 0, err, 0) || Stuck(error, uPrec, ch, e, 1, err, 0)
  }

  // The other channels are as they were, and a component of this one that changed is in range.
  ghost predicate OnlyChannel(e: EndPntPair, e': EndPntPair, ch: nat, uPrec: nat) {
    forall c, d :: 0 <= c < 3 && 0 <= d < 2 && GetEnd(e', c, d) != GetEnd(e, c, d) ==> c == ch && 0 <= GetEnd(e', c, d) < Two(uPrec)
  }

  // The outcome of one channel: either end stuck and nothing moved, or a smaller error, that of the pair reached, at
  // which one end is stuck, and which is no more than what either end alone could gain.
  ghost predicate ChannelDone(error: EndPntPair -> nat, uPrec: nat, ch: nat, s: (EndPntPair, nat), t: (EndPntPair, nat)) {
    && t.1 <= s.1 && OnlyChannel(s.0, t.0, ch, uPrec)
    && (t.1 == s.1 ==> t == s && Stuck(error, uPrec, ch, s.0, 0, s.1, 0) && Stuck(error, uPrec, ch, s.0, 1, s.1, 0))
    && (t.1 < s.1 ==> t.1 == error(t.0) && HasStuckEnd(error, uPrec, ch, t.0, t.1))
    && t.1 <= Perturb(error, uPrec, ch, 0, uPrec, s).1 && t.1 <= Perturb(error, uPrec, ch, 1, uPrec, s).1
  }

  lemma OnlyMovedOnlyChannel(s: EndPntPair, e: EndPntPair, e': EndPntPair, ch: nat, do_b: nat, uPrec: nat)
    requires ch < 3 && do_b < 2 && OnlyChannel(s, e, ch, uPrec) && OnlyMoved(e, e', ch, do_b)
    requires 0 <= GetEnd(e', ch, do_b) < Two(uPrec)
    ensures OnlyChannel(s, e', ch, uPrec)
  {
    forall c: nat, d: nat | c < 3 && d < 2
      ensures GetEnd(e', c, d) == GetEnd(e, c, d) || (c == ch && d == do_b)
    {}
  }

  lemma {:induction false} AlternatingFinds(error: EndPntPair -> nat, uPrec: nat, ch: nat, do_b: nat, s0: EndPntPair, s: (EndPntPair, nat))
    requires ch < 3 && do_b < 2 && OnlyChannel(s0, s.0, ch, uPrec) && s.1 == error(s.0)
    ensures var t := Alternating(error, uPrec, ch, do_b, s);
      t.1 <= s.1 && t.1 == error(t.0) && OnlyChannel(s0, t.0, ch, uPrec) && HasStuckEnd(error, uPrec, ch, t.0, t.1)
    decreases s.1
  {
    PerturbFinds(error, uPrec, ch, do_b, s);
    var n := Perturb(error, uPrec, ch, do_b, uPrec, s);
    if n.1 < s.1 {
      OnlyMovedOnlyChannel(s0, s.0, n.0, ch, do_b, uPrec);
      AlternatingFinds(error, uPrec, ch, 1 - do_b, s0, n);
    }
  }

  lemma ChannelIsDone(error: EndPntPair -> nat, uPrec: nat, ch: nat, s: (EndPntPair, nat))
    requires ch < 3
    ensures ChannelDone(error, uPrec, ch, s, ChannelOptimized(error, uPrec, ch, s))
  {
    PerturbFinds(error, uPrec, ch, 0, s);
    PerturbFinds(error, uPrec, ch, 1, s);
    var a, b := Perturb(error, uPrec, ch, 0, uPrec, s), Perturb(error, uPrec, ch, 1, uPrec, s);
    if a.1 < b.1 {
      OnlyMovedOnlyChannel(s.0, s.0, a.0, ch, 0, uPrec);
      AlternatingFinds(error, uPrec, ch, 1, s.0, a);
    } else if b.1 < s.1 {
      OnlyMovedOnlyChannel(s.0, s.0, b.0, ch, 1, uPrec);
      AlternatingFinds(error, uPrec, ch, 0, s.0, b);
    }
  }

  // The running error is the error of the running endpoints once anything has moved, and never above the start.
  ghost predicate Descended(error: EndPntPair -> nat, org: EndPntPair, orgErr: nat, opt: EndPntPair, optErr: nat) {
    && optErr <= orgErr
    && (optErr < orgErr ==> optErr == error(opt))
    && (optErr == orgErr ==> opt == org)
  }

  // Each component of the result is an original one or lies in the unsigned range of the precision.
  ghost predicate StaysIn(org: EndPntPair, opt: EndPntPair, uPrec: nat -> nat) {
    forall ch, do_b :: 0 <= ch < 3 && 0 <= do_b < 2 ==>
      GetEnd(opt, ch, do_b) == GetEnd(org, ch, do_b) || 0 <= GetEnd(opt, ch, do_b) < Two(uPrec(ch))
  }

  // The pairs reached after each channel, red, green and blue, each done from the one before.
  ghost predicate Optimized(error: EndPntPair -> nat, uPrec: nat -> nat, path: seq<(EndPntPair, nat)>) {
    |path| == 4 && forall ch :: 0 <= ch < 3 ==> ChannelDone(error, uPrec(ch), ch, path[ch], path[ch + 1])
  }

  lemma ChannelsDone(error: EndPntPair -> nat, uPrec: nat -> nat, s: (EndPntPair, nat)) returns (path: seq<(EndPntPair, nat)>)
    ensures Optimized(error, uPrec, path) && path[0] == s && path[3] == ChannelsOptimized(error, uPrec, 3, s)
  {
    path := seq(4, n requires 0 <= n < 4 => ChannelsOptimized(error, uPrec, n, s));
    forall ch | 0 <= ch < 3
      ensures ChannelDone(error, uPrec(ch), ch, path[ch], path[ch + 1])
    {
      ChannelIsDone(error, uPrec(ch), ch, path[ch]);
    }
  }

  lemma OnlyChannelStays(org: EndPntPair, e: EndPntPair, e': EndPntPair, ch: nat, uPrec: nat -> nat)
    requires ch < 3 && StaysIn(org, e, uPrec) && OnlyChannel(e, e', ch, uPrec(ch))
    ensures StaysIn(org, e', uPrec)
  {}

  lemma DoneDescends(error: EndPntPair -> nat, uPrec: nat -> nat, path: seq<(EndPntPair, nat)>)
    requires Optimized(error, uPrec, path)
    ensures Descended(error, path[0].0, path[0].1, path[3].0, path[3].1) && StaysIn(path[0].0, path[3].0, uPrec)
    ensures path[3].1 == path[0].1 ==> NoneHelps(error, uPrec, path[0].0, path[0].1)
  {
    var s, t, u, v := path[0], path[1], path[2], path[3];
    assert ChannelDone(error, uPrec(0), 0, s, t) && ChannelDone(error, uPrec(1), 1, t, u) && ChannelDone(error, uPrec(2), 2, u, v) by {
      forall ch | 0 <= ch < 3 ensures ChannelDone(error, uPrec(ch), ch, path[ch], path[ch + 1]) {}
    }
    OnlyChannelStays(s.0, s.0, t.0, 0, uPrec);
    OnlyChannelStays(s.0, t.0, u.0, 1, uPrec);
    OnlyChannelStays(s.0, u.0, v.0, 2, uPrec);
  }

  // No search of any channel and end improves on the endpoints.
  ghost predicate NoneHelps(error: EndPntPair -> nat, uPrec: nat -> nat, e: EndPntPair, err: nat) {
    forall ch, do_b :: 0 <= ch < 3 && 0 <= do_b < 2 ==> Stuck(error, uPrec(ch), ch, e, do_b, err, 0)
  }

  // ---- the methods ----

  // A logarithmic search for a better value of one component: steps of halving size, both ways.
  method PerturbOne(error: EndPntPair -> nat, uPrec: nat, ch: nat, oldEndPts: EndPntPair, fOldErr: nat, do_b: nat)
    returns (newEndPts: EndPntPair, fMinErr: nat)
    requires ch < 3 && do_b < 2 && uPrec > 0
    ensures (newEndPts, fMinErr) == Perturb(error, uPrec, ch, do_b, uPrec, (oldEndPts, fOldErr))
    ensures Improves(oldEndPts, newEndPts, fOldErr, fMinErr, error, uPrec, ch, do_b)
    ensures fMinErr == fOldErr ==> Stuck(error, uPrec, ch, oldEndPts, do_b, fOldErr, 0)
  {
    fMinErr, newEndPts := fOldErr, oldEndPts;
    var step := Two(uPrec - 1);
    ghost var k: nat := uPrec;
    while step != 0
      invariant k <= uPrec && step == if k == 0 then 0 else Two(k - 1)
      invariant Perturb(error, uPrec, ch, do_b, k, (newEndPts, fMinErr)) ==
                Perturb(error, uPrec, ch, do_b, uPrec, (oldEndPts, fOldErr))
    {
      newEndPts, fMinErr := TryStep(error, uPrec, ch, newEndPts, fMinErr, do_b, step);
      step, k := step / 2, k - 1;
    }
    PerturbFinds(error, uPrec, ch, do_b, (oldEndPts, fOldErr));
  }

  // One step size: down, then up; the endpoint moves to the better of the two if either improves.
  method TryStep(error: EndPntPair -> nat, uPrec: nat, ch: nat, endPts: EndPntPair, fErr: nat, do_b: nat, step: int)
    returns (newEndPts: EndPntPair, fMinErr: nat)
    requires ch < 3 && do_b < 2 && step > 0
    ensures (newEndPts, fMinErr) == Moved(error, uPrec, ch, do_b, step, (endPts, fErr))
    ensures IsBest(error, uPrec, ch, do_b, step, (endPts, fErr), (newEndPts, fMinErr))
  {
    var bImproved, beststep := false, 0;
    fMinErr := fErr;
    var at := GetEnd(endPts, ch, do_b);
    ghost var down := Tried(error, uPrec, ch, do_b, endPts, at - step, (endPts, fErr));
    var sign := -1;
    while sign <= 1
      invariant sign == -1 || sign == 1 || sign == 3
      invariant (if bImproved then SetEnd(endPts, ch, do_b, at + beststep) else endPts, fMinErr) ==
                if sign == -1 then (endPts, fErr) else if sign == 1 then down
                else Moved(error, uPrec, ch, do_b, step, (endPts, fErr))
      decreases 3 - sign
    {
      var tmpEndPts := SetEnd(endPts, ch, do_b, if sign < 0 then at - step else at + step);
      var v := GetEnd(tmpEndPts, ch, do_b);
      if 0 <= v < Two(uPrec) {
        var fErr' := error(tmpEndPts);
        if fErr' < fMinErr {
          bImproved, fMinErr, beststep := true, fErr', if sign < 0 then -step else step;
        }
      }
      sign := sign + 2;
    }
    newEndPts := endPts;
    if bImproved {
      newEndPts := SetEnd(endPts, ch, do_b, at + beststep);
    }
    MovedIsBest(error, uPrec, ch, do_b, step, (endPts, fErr));
  }

  // Alternates the two ends of one channel until neither search from the current endpoints helps.
  method Alternate(error: EndPntPair -> nat, uPrec: nat, ch: nat, opt0: EndPntPair, optErr0: nat, next: nat)
    returns (opt: EndPntPair, optErr: nat)
    requires ch < 3 && next < 2 && uPrec > 0
    ensures (opt, optErr) == Alternating(error, uPrec, ch, next, (opt0, optErr0))
    ensures optErr0 == error(opt0) ==> HasStuckEnd(error, uPrec, ch, opt, optErr)
  {
    opt, optErr := opt0, optErr0;
    var do_b := next;
    while true
      invariant do_b < 2
      invariant Alternating(error, uPrec, ch, do_b, (opt, optErr)) == Alternating(error, uPrec, ch, next, (opt0, optErr0))
      decreases optErr
    {
      var newEndPts, fErr := PerturbOne(error, uPrec, ch, opt, optErr, do_b);
      if fErr >= optErr {
        break;
      }
      opt, optErr, do_b := Adopt(opt, newEndPts, ch, do_b), fErr, 1 - do_b;
    }
    if optErr0 == error(opt0) {
      AlternatingFinds(error, uPrec, ch, next, opt0, (opt0, optErr0));
    }
  }

  // Optimizes each channel in turn, starting with the end that gains more. Also returned, for the proof, are the pairs
  // reached after each channel.
  method OptimizeOne(error: EndPntPair -> nat, uPrec: nat -> nat, aOrgErr: nat, aOrgEndPts: EndPntPair)
    returns (aOptEndPts: EndPntPair, aOptErr: nat, ghost path: seq<(EndPntPair, nat)>)
    requires uPrec(0) > 0 && uPrec(1) > 0 && uPrec(2) > 0
    ensures (aOptEndPts, aOptErr) == ChannelsOptimized(error, uPrec, 3, (aOrgEndPts, aOrgErr))
    ensures Optimized(error, uPrec, path) && path[0] == (aOrgEndPts, aOrgErr) && path[3] == (aOptEndPts, aOptErr)
    ensures Descended(error, aOrgEndPts, aOrgErr, aOptEndPts, aOptErr)
    ensures StaysIn(aOrgEndPts, aOptEndPts, uPrec)
    ensures aOptErr == aOrgErr ==> NoneHelps(error, uPrec, aOrgEndPts, aOrgErr)
  {
    aOptEndPts, aOptErr := aOrgEndPts, aOrgErr;
    var ch := 0;
    while ch < 3
      invariant 0 <= ch <= 3
      invariant (aOptEndPts, aOptErr) == ChannelsOptimized(error, uPrec, ch, (aOrgEndPts, aOrgErr))
    {
      var new_a, fErr0 := PerturbOne(error, uPrec(ch), ch, aOptEndPts, aOptErr, 0);
      var new_b, fErr1 := PerturbOne(error, uPrec(ch), ch, aOptEndPts, aOptErr, 1);
      if fErr0 < fErr1 {
        if fErr0 < aOptErr {
          aOptEndPts, aOptErr := Alternate(error, uPrec(ch), ch, Adopt(aOptEndPts, new_a, ch, 0), fErr0, 1);
        }
      } else if fErr1 < aOptErr {
        aOptEndPts, aOptErr := Alternate(error, uPrec(ch), ch, Adopt(aOptEndPts, new_b, ch, 1), fErr1, 0);
      }
      ch := ch + 1;
    }
    path := ChannelsDone(error, uPrec, (aOrgEndPts, aOrgErr));
    DoneDescends(error, uPrec, path);
  }
}

/**
 The scan loop of `main`: each candidate goes through the availability check,
 then the WHOIS expiration check, then the HTTP probe, stopping at the first
 that decides it. The three network lookups and the rendering of a date are
 oracles supplied by the caller.
 */
module Driver {
  import opened Options
  import opened Seqs
  import opened Text
  import opened Generator
  import opened Whois

  /** How `socket.gethostbyname(domain)` ends. */
  datatype Resolution =
    | Resolved        // an address came back: the domain is registered
    | NameNotFound    // `socket.gaierror`: reported as available
    | ResolverFault   // any other exception: not caught, so it ends the whole run

  /** The outside world, seen through the lookups the script makes. */
  datatype Oracles<!D> = Oracles(
    resolve: string -> Resolution,
    whois: string -> WhoisReply<D>,
    daysUntil: D -> Option<int>,
    httpOk: string -> bool,        // `requests.get` answered with status 200
    dateText: D -> string)         // how a date is rendered inside an f-string

  /** Which branch of the priority chain a candidate ends in. */
  datatype Verdict<D> = Available | ExpiringSoon(date: D) | Active | Inactive | Fault

  /** The two result lists, plus what the HTTP probe was consulted on and what it reported active. */
  datatype ScanState = ScanState(
    available: seq<string>,
    comingsoon: seq<string>,
    probed: seq<string>,
    active: seq<string>)

  /** A run either finishes the loop, or an uncaught resolver exception ends it at some domain. */
  datatype Run = Completed(state: ScanState) | Aborted(domain: string)

  const NoResults := ScanState([], [], [], [])

  /** The line written to the coming-soon file. */
  function ExpiryLine<D>(domain: string, date: D, o: Oracles<D>): string
  {
    domain + " - expires on " + o.dateText(date)
  }

  /** The priority chain for one candidate: available, then expiring soon, then the HTTP probe. */
  function Classify<D>(domain: string, o: Oracles<D>): Verdict<D>
  {
    match o.resolve(domain)
    case ResolverFault => Fault
    case NameNotFound => Available
    case Resolved =>
      var e := CheckExpiration(o.whois(domain), o.daysUntil);
      if e.soon then ExpiringSoon(e.date.value)
      else if o.httpOk(domain) then Active
      else Inactive
  }

  /** One pass of the loop body: append the candidate where its verdict sends it. */
  function Step<D>(st: ScanState, domain: string, o: Oracles<D>): Run
  {
    match Classify(domain, o)
    case Fault => Aborted(domain)
    case Available => Completed(st.(available := st.available + [domain]))
    case ExpiringSoon(date) => Completed(st.(comingsoon := st.comingsoon + [ExpiryLine(domain, date, o)]))
    case Active => Completed(st.(probed := st.probed + [domain], active := st.active + [domain]))
    case Inactive => Completed(st.(probed := st.probed + [domain]))
  }

  // What each candidate contributes to each list, taken one candidate at a time.

  function AvailablePick<D>(o: Oracles<D>): string -> Option<string>
  {
    d => if Classify(d, o).Available? then Some(d) else None
  }

  function ComingSoonPick<D>(o: Oracles<D>): string -> Option<string>
  {
    d => match Classify(d, o)
         case ExpiringSoon(date) => Some(ExpiryLine(d, date, o))
         case _ => None
  }

  function ProbedPick<D>(o: Oracles<D>): string -> Option<string>
  {
    d => if Classify(d, o).Active? || Classify(d, o).Inactive? then Some(d) else None
  }

  function ActivePick<D>(o: Oracles<D>): string -> Option<string>
  {
    d => if Classify(d, o).Active? then Some(d) else None
  }

  /** `after` is `before` with each list extended by what `domains` contribute to it. */
  ghost predicate Extends<D>(after: ScanState, before: ScanState, domains: seq<string>, o: Oracles<D>)
  {
    && after.available == before.available + FilterMap(domains, AvailablePick(o))
    && after.comingsoon == before.comingsoon + FilterMap(domains, ComingSoonPick(o))
    && after.probed == before.probed + FilterMap(domains, ProbedPick(o))
    && after.active == before.active + FilterMap(domains, ActivePick(o))
  }

  /** One step extends the lists by exactly what its candidate contributes. */
  lemma StepExtends<D>(st: ScanState, domain: string, o: Oracles<D>)
    ensures Step(st, domain, o).Aborted? <==> o.resolve(domain) == ResolverFault
    ensures Step(st, domain, o).Completed? ==> Extends(Step(st, domain, o).state, st, [domain], o)
  {
    assert [domain][1..] == [];
  }

  /** Extensions compose along concatenated candidate lists. */
  lemma ExtendsChain<D>(a: ScanState, b: ScanState, c: ScanState, xs: seq<string>, ys: seq<string>, o: Oracles<D>)
    requires Extends(b, a, xs, o) && Extends(c, b, ys, o)
    ensures Extends(c, a, xs + ys, o)
  {
    AppendChain(a.available, xs, ys, AvailablePick(o));
    AppendChain(a.comingsoon, xs, ys, ComingSoonPick(o));
    AppendChain(a.probed, xs, ys, ProbedPick(o));
    AppendChain(a.active, xs, ys, ActivePick(o));
  }

  lemma AppendChain(start: seq<string>, xs: seq<string>, ys: seq<string>, f: string -> Option<string>)
    ensures start + FilterMap(xs, f) + FilterMap(ys, f) == start + FilterMap(xs + ys, f)
  {
    FilterMapAppend(xs, ys, f);
  }

  /** `domain` is the earliest entry of `rest` on which the resolver raises. */
  ghost predicate FirstFault<D>(rest: seq<string>, domain: string, o: Oracles<D>)
  {
    exists k :: 0 <= k < |rest| && rest[k] == domain && o.resolve(domain) == ResolverFault &&
      forall i :: 0 <= i < k ==> o.resolve(rest[i]) != ResolverFault
  }

  /** The loop `for domain in domains`, continued from state `st` over the remaining candidates. */
  function ScanFrom<D>(st: ScanState, rest: seq<string>, o: Oracles<D>): (r: Run)
    ensures r.Completed? <==> forall d :: d in rest ==> o.resolve(d) != ResolverFault
    ensures r.Aborted? ==> r.domain in rest && o.resolve(r.domain) == ResolverFault
    ensures r.Aborted? ==> FirstFault(rest, r.domain, o)
    ensures r.Completed? ==> Extends(r.state, st, rest, o)
    decreases |rest|
  {
    if |rest| == 0 then Completed(st)
    else
      StepExtends(st, rest[0], o);
      match Step(st, rest[0], o)
      case Aborted(d) =>
        assert FirstFault(rest, d, o) by { assert rest[0] == d; }
        Aborted(d)
      case Completed(next) =>
        var r := ScanFrom(next, rest[1..], o);
        assert rest == [rest[0]] + rest[1..];
        if r.Completed? then
          ExtendsChain(st, next, r.state, [rest[0]], rest[1..], o);
          r
        else
          FirstFaultCons(rest, r.domain, o);
          r
  }

  /** A first fault after a candidate that does not fault is the first fault of the longer list. */
  lemma FirstFaultCons<D>(rest: seq<string>, domain: string, o: Oracles<D>)
    requires |rest| > 0 && o.resolve(rest[0]) != ResolverFault
    requires FirstFault(rest[1..], domain, o)
    ensures FirstFault(rest, domain, o)
  {
    var k :| 0 <= k < |rest[1..]| && rest[1..][k] == domain && o.resolve(domain) == ResolverFault &&
      forall i :: 0 <= i < k ==> o.resolve(rest[1..][i]) != ResolverFault;
    assert rest[k + 1] == domain;
    forall i | 0 <= i < k + 1
      ensures o.resolve(rest[i]) != ResolverFault
    {
      if i > 0 {
        assert rest[i] == rest[1..][i - 1];
      }
    }
  }

  /** The whole scan over the candidate list, starting from empty result lists. */
  function Scan<D>(candidates: seq<string>, o: Oracles<D>): (r: Run)
    ensures r.Completed? <==> forall d :: d in candidates ==> o.resolve(d) != ResolverFault
    ensures r.Aborted? ==> r.domain in candidates && o.resolve(r.domain) == ResolverFault
    ensures r.Aborted? ==> FirstFault(candidates, r.domain, o)
    ensures r.Completed? ==> Extends(r.state, NoResults, candidates, o)
  {
    ScanFrom(NoResults, candidates, o)
  }

  /** `available` holds exactly the candidates whose name did not resolve, each as often as it occurs. */
  lemma ScanAvailableExactly<D>(candidates: seq<string>, o: Oracles<D>)
    requires Scan(candidates, o).Completed?
    ensures forall d :: d in Scan(candidates, o).state.available <==>
              d in candidates && o.resolve(d) == NameNotFound
    ensures forall d :: o.resolve(d) == NameNotFound ==>
              multiset(Scan(candidates, o).state.available)[d] == multiset(candidates)[d]
  {
    var available := Scan(candidates, o).state.available;
    assert available == FilterMap(candidates, AvailablePick(o)) by {
      assert NoResults.available == [];
    }
    AvailableMembers(candidates, o);
    AvailableCounts(candidates, o);
  }

  /** Selecting the unresolvable candidates keeps exactly those names. */
  lemma AvailableMembers<D>(candidates: seq<string>, o: Oracles<D>)
    ensures forall d :: d in FilterMap(candidates, AvailablePick(o)) <==>
              d in candidates && o.resolve(d) == NameNotFound
  {
    FilterMapMembers(candidates, AvailablePick(o));
  }

  /** Selecting the unresolvable candidates drops none of their repetitions. */
  lemma AvailableCounts<D>(candidates: seq<string>, o: Oracles<D>)
    ensures forall d :: o.resolve(d) == NameNotFound ==>
              multiset(FilterMap(candidates, AvailablePick(o)))[d] == multiset(candidates)[d]
  {
    var f := AvailablePick(o);
    assert forall y :: f(y).Some? ==> f(y) == Some(y);
    forall d | o.resolve(d) == NameNotFound
      ensures multiset(FilterMap(candidates, f))[d] == multiset(candidates)[d]
    {
      FilterMapCount(candidates, f, d);
    }
  }

  /** `available` keeps input order: of two available candidates, the earlier is listed first. */
  lemma ScanAvailableOrder<D>(candidates: seq<string>, o: Oracles<D>, i: int, j: int)
    requires Scan(candidates, o).Completed?
    requires 0 <= i < j < |candidates|
    requires o.resolve(candidates[i]) == NameNotFound && o.resolve(candidates[j]) == NameNotFound
    ensures var available := Scan(candidates, o).state.available;
            exists p, q :: 0 <= p < q < |available| && available[p] == candidates[i] && available[q] == candidates[j]
  {
    var f := AvailablePick(o);
    var fm := FilterMap(candidates, f);
    var available := Scan(candidates, o).state.available;
    assert available == fm by {
      assert [] + fm == fm;
    }
    var p, q := |FilterMap(candidates[..i], f)|, |FilterMap(candidates[..j], f)|;
    assert f(candidates[i]) == Some(candidates[i]);
    assert f(candidates[j]) == Some(candidates[j]);
    FilterMapPosition(candidates, f, i);
    FilterMapPosition(candidates, f, j);
    FilterMapOrder(candidates, f, i, j);
    assert fm[p] == candidates[i];
    assert fm[q] == candidates[j];
  }

  /** `comingsoon` holds exactly the lines of registered candidates whose WHOIS date is within the threshold. */
  lemma ScanComingSoonExactly<D>(candidates: seq<string>, o: Oracles<D>)
    requires Scan(candidates, o).Completed?
    ensures forall y :: y in Scan(candidates, o).state.comingsoon <==>
              exists d, date :: && d in candidates
                                && o.resolve(d) == Resolved
                                && CheckExpiration(o.whois(d), o.daysUntil) == Expiry(true, Some(date))
                                && y == ExpiryLine(d, date, o)
  {
    var f := ComingSoonPick(o);
    var fm := FilterMap(candidates, f);
    assert Scan(candidates, o).state.comingsoon == fm by {
      assert [] + fm == fm;
    }
    ComingSoonSources(candidates, o);
    ComingSoonCovers(candidates, o);
  }

  lemma ComingSoonSources<D>(candidates: seq<string>, o: Oracles<D>)
    ensures forall y :: y in FilterMap(candidates, ComingSoonPick(o)) ==>
              exists d, date :: && d in candidates
                                && o.resolve(d) == Resolved
                                && CheckExpiration(o.whois(d), o.daysUntil) == Expiry(true, Some(date))
                                && y == ExpiryLine(d, date, o)
  {
    var f := ComingSoonPick(o);
    forall y | y in FilterMap(candidates, f)
      ensures exists d, date :: && d in candidates
                                && o.resolve(d) == Resolved
                                && CheckExpiration(o.whois(d), o.daysUntil) == Expiry(true, Some(date))
                                && y == ExpiryLine(d, date, o)
    {
      var d :| d in candidates && f(d) == Some(y);
      var date := Classify(d, o).date;
      assert y == ExpiryLine(d, date, o);
    }
  }

  lemma ComingSoonCovers<D>(candidates: seq<string>, o: Oracles<D>)
    ensures forall d, date :: && d in candidates
                              && o.resolve(d) == Resolved
                              && CheckExpiration(o.whois(d), o.daysUntil) == Expiry(true, Some(date))
                              ==> ExpiryLine(d, date, o) in FilterMap(candidates, ComingSoonPick(o))
  {
    var f := ComingSoonPick(o);
    FilterMapMembers(candidates, f);
    forall d, date | && d in candidates
                     && o.resolve(d) == Resolved
                     && CheckExpiration(o.whois(d), o.daysUntil) == Expiry(true, Some(date))
      ensures ExpiryLine(d, date, o) in FilterMap(candidates, f)
    {
      assert f(d) == Some(ExpiryLine(d, date, o));
    }
  }

  /** `comingsoon` keeps input order: of two expiring candidates, the earlier one's line comes first. */
  lemma ScanComingSoonOrder<D>(candidates: seq<string>, o: Oracles<D>, i: int, j: int)
    requires Scan(candidates, o).Completed?
    requires 0 <= i < j < |candidates|
    requires Classify(candidates[i], o).ExpiringSoon? && Classify(candidates[j], o).ExpiringSoon?
    ensures var comingsoon := Scan(candidates, o).state.comingsoon;
            exists p, q :: && 0 <= p < q < |comingsoon|
                           && comingsoon[p] == ExpiryLine(candidates[i], Classify(candidates[i], o).date, o)
                           && comingsoon[q] == ExpiryLine(candidates[j], Classify(candidates[j], o).date, o)
  {
    var f := ComingSoonPick(o);
    var fm := FilterMap(candidates, f);
    var comingsoon := Scan(candidates, o).state.comingsoon;
    assert comingsoon == fm by {
      assert [] + fm == fm;
    }
    var p, q := |FilterMap(candidates[..i], f)|, |FilterMap(candidates[..j], f)|;
    assert f(candidates[i]) == Some(ExpiryLine(candidates[i], Classify(candidates[i], o).date, o));
    assert f(candidates[j]) == Some(ExpiryLine(candidates[j], Classify(candidates[j], o).date, o));
    FilterMapPosition(candidates, f, i);
    FilterMapPosition(candidates, f, j);
    FilterMapOrder(candidates, f, i, j);
    assert fm[p] == ExpiryLine(candidates[i], Classify(candidates[i], o).date, o);
    assert fm[q] == ExpiryLine(candidates[j], Classify(candidates[j], o).date, o);
  }

  /** The HTTP probe is consulted exactly for registered candidates that are not expiring soon. */
  lemma ScanProbedExactly<D>(candidates: seq<string>, o: Oracles<D>)
    requires Scan(candidates, o).Completed?
    ensures forall d :: d in Scan(candidates, o).state.probed <==>
              && d in candidates
              && o.resolve(d) == Resolved
              && !CheckExpiration(o.whois(d), o.daysUntil).soon
  {
    FilterMapMembers(candidates, ProbedPick(o));
  }

  /** The HTTP probe reports active exactly the probed candidates that answer with status 200. */
  lemma ScanActiveExactly<D>(candidates: seq<string>, o: Oracles<D>)
    requires Scan(candidates, o).Completed?
    ensures forall d :: d in Scan(candidates, o).state.active <==>
              d in Scan(candidates, o).state.probed && o.httpOk(d)
  {
    forall d ensures ActivePick(o)(d) == (if ProbedPick(o)(d).Some? && o.httpOk(d) then Some(d) else None) {
    }
    NarrowedSelection(candidates, ProbedPick(o), ActivePick(o), o.httpOk);
  }

  /** Selecting by a stricter test keeps exactly the selected items that also pass it. */
  lemma NarrowedSelection(s: seq<string>, f: string -> Option<string>, g: string -> Option<string>, keep: string -> bool)
    requires forall d :: f(d).Some? ==> f(d) == Some(d)
    requires forall d :: g(d) == (if f(d).Some? && keep(d) then Some(d) else None)
    ensures forall d :: d in FilterMap(s, g) <==> d in FilterMap(s, f) && keep(d)
  {
    FilterMapMembers(s, f);
    FilterMapMembers(s, g);
  }

  /** No domain is in both files: every coming-soon line names a domain absent from `available`. */
  lemma ScanDisjoint<D>(candidates: seq<string>, o: Oracles<D>)
    requires Scan(candidates, o).Completed?
    ensures var st := Scan(candidates, o).state;
            forall y :: y in st.comingsoon ==>
              exists d, date :: d in candidates && d !in st.available && y == ExpiryLine(d, date, o)
  {
    ScanAvailableExactly(candidates, o);
    ScanComingSoonExactly(candidates, o);
  }

  /** Each candidate occurrence lands in exactly one of available, coming soon, or probed. */
  lemma ScanPartition<D>(candidates: seq<string>, o: Oracles<D>)
    requires Scan(candidates, o).Completed?
    ensures var st := Scan(candidates, o).state;
            |st.available| + |st.comingsoon| + |st.probed| == |candidates|
    ensures var st := Scan(candidates, o).state;
            |st.available| + |st.comingsoon| <= |candidates|
    ensures forall i :: 0 <= i < |candidates| ==>
              ExactlyOne(AvailablePick(o)(candidates[i]), ComingSoonPick(o)(candidates[i]), ProbedPick(o)(candidates[i]))
  {
    forall d | d in candidates
      ensures ExactlyOne(AvailablePick(o)(d), ComingSoonPick(o)(d), ProbedPick(o)(d))
    {
    }
    FilterMapPartition(candidates, AvailablePick(o), ComingSoonPick(o), ProbedPick(o));
  }

  /** The HTTP answer changes neither output list, nor which candidates are probed. */
  lemma ScanIgnoresHttp<D>(candidates: seq<string>, o: Oracles<D>, httpOk: string -> bool)
    ensures var o' := o.(httpOk := httpOk);
            && (Scan(candidates, o').Completed? <==> Scan(candidates, o).Completed?)
            && (Scan(candidates, o).Completed? ==>
                  && Scan(candidates, o').state.available == Scan(candidates, o).state.available
                  && Scan(candidates, o').state.comingsoon == Scan(candidates, o).state.comingsoon
                  && Scan(candidates, o').state.probed == Scan(candidates, o).state.probed)
  {
    var o' := o.(httpOk := httpOk);
    assert o'.resolve == o.resolve;
    if Scan(candidates, o).Completed? {
      forall d ensures AvailablePick(o')(d) == AvailablePick(o)(d) {
        ClassifyIgnoresHttp(d, o, httpOk);
      }
      FilterMapCongruent(candidates, AvailablePick(o'), AvailablePick(o));
      forall d ensures ComingSoonPick(o')(d) == ComingSoonPick(o)(d) {
        ClassifyIgnoresHttp(d, o, httpOk);
      }
      FilterMapCongruent(candidates, ComingSoonPick(o'), ComingSoonPick(o));
      forall d ensures ProbedPick(o')(d) == ProbedPick(o)(d) {
        ClassifyIgnoresHttp(d, o, httpOk);
      }
      FilterMapCongruent(candidates, ProbedPick(o'), ProbedPick(o));
    }
  }

  /** The HTTP answer only ever chooses between Active and Inactive. */
  lemma ClassifyIgnoresHttp<D>(domain: string, o: Oracles<D>, httpOk: string -> bool)
    ensures var v, w := Classify(domain, o.(httpOk := httpOk)), Classify(domain, o);
            && (v.Active? || v.Inactive? <==> w.Active? || w.Inactive?)
            && (!(v.Active? || v.Inactive?) ==> v == w)
  {
  }

  /** Scanning a concatenation is scanning each part: candidates are judged independently, in order. */
  lemma ScanAppend<D>(xs: seq<string>, ys: seq<string>, o: Oracles<D>)
    requires Scan(xs + ys, o).Completed?
    ensures Scan(xs, o).Completed? && Scan(ys, o).Completed?
    ensures Scan(xs + ys, o).state.available == Scan(xs, o).state.available + Scan(ys, o).state.available
    ensures Scan(xs + ys, o).state.comingsoon == Scan(xs, o).state.comingsoon + Scan(ys, o).state.comingsoon
    ensures Scan(xs + ys, o).state.probed == Scan(xs, o).state.probed + Scan(ys, o).state.probed
    ensures Scan(xs + ys, o).state.active == Scan(xs, o).state.active + Scan(ys, o).state.active
  {
    assert forall d :: d in xs ==> d in xs + ys;
    assert forall d :: d in ys ==> d in xs + ys;
    ScanSelects(xs + ys, o);
    ScanSelects(xs, o);
    ScanSelects(ys, o);
    FilterMapAppend(xs, ys, AvailablePick(o));
    FilterMapAppend(xs, ys, ComingSoonPick(o));
    FilterMapAppend(xs, ys, ProbedPick(o));
    FilterMapAppend(xs, ys, ActivePick(o));
  }

  /** A scan of a concatenation that aborts stops where the first part's scan stops, or else where the second part's does. */
  lemma ScanAppendAborted<D>(xs: seq<string>, ys: seq<string>, o: Oracles<D>)
    requires Scan(xs + ys, o).Aborted?
    ensures Scan(xs, o).Aborted? ==> Scan(xs + ys, o) == Scan(xs, o)
    ensures Scan(xs, o).Completed? ==> Scan(ys, o).Aborted? && Scan(xs + ys, o) == Scan(ys, o)
  {
    var d := Scan(xs + ys, o).domain;
    if Scan(xs, o).Aborted? {
      FirstFaultPrefix(xs, ys, Scan(xs, o).domain, o);
      FirstFaultUnique(xs + ys, d, Scan(xs, o).domain, o);
    } else {
      assert d in xs + ys;
      assert d in ys;
      FirstFaultShift(xs, ys, Scan(ys, o).domain, o);
      FirstFaultUnique(xs + ys, d, Scan(ys, o).domain, o);
    }
  }

  /** A list has at most one first fault. */
  lemma FirstFaultUnique<D>(s: seq<string>, a: string, b: string, o: Oracles<D>)
    requires FirstFault(s, a, o) && FirstFault(s, b, o)
    ensures a == b
  {
    var k :| 0 <= k < |s| && s[k] == a && o.resolve(a) == ResolverFault &&
      forall i :: 0 <= i < k ==> o.resolve(s[i]) != ResolverFault;
    var m :| 0 <= m < |s| && s[m] == b && o.resolve(b) == ResolverFault &&
      forall i :: 0 <= i < m ==> o.resolve(s[i]) != ResolverFault;
    assert k == m;
  }

  /** The first fault of a list stays the first fault when more candidates follow. */
  lemma FirstFaultPrefix<D>(xs: seq<string>, ys: seq<string>, d: string, o: Oracles<D>)
    requires FirstFault(xs, d, o)
    ensures FirstFault(xs + ys, d, o)
  {
    var k :| 0 <= k < |xs| && xs[k] == d && o.resolve(d) == ResolverFault &&
      forall i :: 0 <= i < k ==> o.resolve(xs[i]) != ResolverFault;
    assert (xs + ys)[k] == d;
    assert forall i :: 0 <= i < k ==> (xs + ys)[i] == xs[i];
  }

  /** After candidates that never fault, the first fault of what follows is the first fault overall. */
  lemma FirstFaultShift<D>(xs: seq<string>, ys: seq<string>, d: string, o: Oracles<D>)
    requires forall x :: x in xs ==> o.resolve(x) != ResolverFault
    requires FirstFault(ys, d, o)
    ensures FirstFault(xs + ys, d, o)
  {
    var k :| 0 <= k < |ys| && ys[k] == d && o.resolve(d) == ResolverFault &&
      forall i :: 0 <= i < k ==> o.resolve(ys[i]) != ResolverFault;
    var zs := xs + ys;
    assert zs[|xs| + k] == d;
    forall i | 0 <= i < |xs| + k
      ensures o.resolve(zs[i]) != ResolverFault
    {
      if i < |xs| {
        assert zs[i] == xs[i] && xs[i] in xs;
      } else {
        assert zs[i] == ys[i - |xs|];
      }
    }
  }

  /** A completed scan's output lists are the reference selections over the candidates. */
  lemma ScanSelects<D>(candidates: seq<string>, o: Oracles<D>)
    requires Scan(candidates, o).Completed?
    ensures Scan(candidates, o).state.available == FilterMap(candidates, AvailablePick(o))
    ensures Scan(candidates, o).state.comingsoon == FilterMap(candidates, ComingSoonPick(o))
    ensures Scan(candidates, o).state.probed == FilterMap(candidates, ProbedPick(o))
    ensures Scan(candidates, o).state.active == FilterMap(candidates, ActivePick(o))
  {
    assert NoResults.available == [] && NoResults.comingsoon == [];
    assert NoResults.probed == [] && NoResults.active == [];
  }

  /** `main` up to the output files: read the three inputs, build the candidates, scan them. */
  function Sweep<D>(domainLines: seq<string>, wordLines: seq<string>, tldLines: seq<string>, o: Oracles<D>): (r: Run)
    ensures r.Completed? ==> forall d :: d in r.state.available ==> |d| > 0 && IsStripped(d)
    ensures r.Completed? ==>
              |r.state.available| + |r.state.comingsoon| + |r.state.probed| ==
              |KeepStripped(domainLines)| + |KeepStripped(wordLines)| * |KeepStripped(tldLines)|
  {
    var candidates := Candidates(domainLines, wordLines, tldLines);
    var r := Scan(candidates, o);
    if r.Completed? then
      ScanAvailableExactly(candidates, o);
      ScanPartition(candidates, o);
      r
    else r
  }

  /**
   A small world for the worked example: dates are day offsets from now,
   `free.com` does not resolve, `soon.com` expires in 10 days, `busy.com`
   lists 90 days first and answers HTTP, and the WHOIS lookup of `odd.com` fails.
   */
  function ExampleWorld(): Oracles<int>
  {
    Oracles(
      d => if d == "free.com" then NameNotFound else Resolved,
      d => if d == "soon.com" then WhoisRecord(OneDate(10))
           else if d == "busy.com" then WhoisRecord(DateList([90, 5]))
           else WhoisFailed,
      days => Some(days),
      d => d == "busy.com",
      days => "in-ten-days")
  }

  /** One candidate per branch of the chain ends up where the script would put it. */
  lemma ScanExample()
    ensures Scan(["free.com", "soon.com", "busy.com", "odd.com"], ExampleWorld()) ==
            Completed(ScanState(
              ["free.com"],
              ["soon.com - expires on in-ten-days"],
              ["busy.com", "odd.com"],
              ["busy.com"]))
  {
    var o := ExampleWorld();
    var c := ["free.com", "soon.com", "busy.com", "odd.com"];
    var s1 := ScanState(["free.com"], [], [], []);
    var s2 := s1.(comingsoon := ["soon.com - expires on in-ten-days"]);
    var s3 := s2.(probed := ["busy.com"], active := ["busy.com"]);
    var s4 := s3.(probed := ["busy.com", "odd.com"]);
    assert Step(NoResults, c[0], o) == Completed(s1) by {
      ExampleFree(NoResults);
      assert [] + ["free.com"] == ["free.com"];
    }
    assert Step(s1, c[1], o) == Completed(s2) by {
      ExampleSoon(s1);
      assert [] + ["soon.com - expires on in-ten-days"] == ["soon.com - expires on in-ten-days"];
    }
    assert Step(s2, c[2], o) == Completed(s3) by {
      ExampleBusy(s2);
      assert [] + ["busy.com"] == ["busy.com"];
    }
    assert Step(s3, c[3], o) == Completed(s4) by {
      ExampleOdd(s3);
      assert ["busy.com"] + ["odd.com"] == ["busy.com", "odd.com"];
    }
    assert c[1..][1..][1..][1..] == [];
    assert ScanFrom(s3, c[1..][1..][1..], o) == Completed(s4);
    assert ScanFrom(s2, c[1..][1..], o) == Completed(s4);
    assert ScanFrom(s1, c[1..], o) == Completed(s4);
  }

  lemma ExampleFree(st: ScanState)
    ensures Step(st, "free.com", ExampleWorld()) == Completed(st.(available := st.available + ["free.com"]))
  {
  }

  lemma ExampleSoon(st: ScanState)
    ensures Step(st, "soon.com", ExampleWorld()) ==
            Completed(st.(comingsoon := st.comingsoon + ["soon.com - expires on in-ten-days"]))
  {
    assert "soon.com" != "free.com";
    assert Classify("soon.com", ExampleWorld()) == ExpiringSoon(10);
    assert ExpiryLine("soon.com", 10, ExampleWorld()) == "soon.com - expires on in-ten-days";
  }

  lemma ExampleBusy(st: ScanState)
    ensures Step(st, "busy.com", ExampleWorld()) ==
            Completed(st.(probed := st.probed + ["busy.com"], active := st.active + ["busy.com"]))
  {
    assert "busy.com" != "free.com" && "busy.com" != "soon.com";
    assert Classify("busy.com", ExampleWorld()) == Active;
  }

  lemma ExampleOdd(st: ScanState)
    ensures Step(st, "odd.com", ExampleWorld()) == Completed(st.(probed := st.probed + ["odd.com"]))
  {
    assert "odd.com" != "free.com" && "odd.com" != "soon.com" && "odd.com" != "busy.com";
    assert Classify("odd.com", ExampleWorld()) == Inactive;
  }
}

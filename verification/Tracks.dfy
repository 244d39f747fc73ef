/** Reading a manifest's site table: which track each site is drawn on. */
module Tracks {
  import opened Machine
  import opened Options
  import opened EventModel
  import opened Capture
  import Captions
  import Readback

  /** A site that is not a stall is a transfer; a stall names the transfer it observes. Older manifests list
      no captured fields. */
  datatype Site = Site(id: string, title: Option<string>, stall: bool, observationOf: string, width: U32,
                       fields: Option<seq<Field>>)

  datatype Dependency = Dependency(parent: string, child: string)

  ghost predicate Distinct(sites: seq<Site>) {
    forall i, j :: 0 <= i < j < |sites| ==> sites[i].id != sites[j].id
  }

  /** Distinct nonempty identities; stalls observe something, transfers nothing. */
  ghost predicate Named(sites: seq<Site>) {
    Distinct(sites) && forall s <- sites :: s.id != "" && (s.stall <==> s.observationOf != "")
  }

  ghost predicate ObservesTransfer(sites: seq<Site>, s: Site) {
    s.stall ==> exists t <- sites :: t.id == s.observationOf && !t.stall
  }

  ghost predicate SitesWellFormed(sites: seq<Site>) {
    0 < |sites| < 0x7fff_ffff && Named(sites) && forall i :: 0 <= i < |sites| ==> ObservesTransfer(sites, sites[i])
  }

  /** Either no site lists its fields, or every site lists fields that fit its payload. */
  ghost predicate SchemaFormed(sites: seq<Site>)
    requires sites != []
  {
    && (forall s <- sites :: s.fields.Some? == sites[0].fields.Some?)
    && (sites[0].fields.Some? ==> forall s <- sites :: SiteFormed(s.fields.value, s.width))
  }

  /** A site is displayed under its title, or its identity if it has none. */
  ghost function ViewOf(s: Site): Captions.View {
    Captions.View(Readback.Ascii(match s.title case Some(title) => title case None => s.id), s.stall, s.fields)
  }

  ghost function ViewsOf(sites: seq<Site>): (views: seq<Captions.View>)
    ensures |views| == |sites| && forall i :: 0 <= i < |sites| ==> views[i] == ViewOf(sites[i])
  {
    seq(|sites|, i requires 0 <= i < |sites| => ViewOf(sites[i]))
  }

  method BuildViews(sites: seq<Site>) returns (views: seq<Captions.View>)
    ensures views == ViewsOf(sites)
  {
    views := [];
    for i := 0 to |sites|
      invariant |views| == i && forall j :: 0 <= j < i ==> views[j] == ViewOf(sites[j])
    {
      var s := sites[i];
      var title := if s.title.Some? then s.title.value else s.id;
      views := views + [Captions.View(Readback.Ascii(title), s.stall, s.fields)];
    }
  }

  /** The capture schema, or none when the first site lists no fields. */
  method CheckSchema(sites: seq<Site>) returns (ok: bool)
    requires sites != []
    ensures ok <==> SchemaFormed(sites)
  {
    hide SiteFormed;
    var named := sites[0].fields.Some?;
    var schema: seq<seq<Field>>, widths: seq<U32> := [], [];
    for i := 0 to |sites|
      invariant forall j :: 0 <= j < i ==> sites[j].fields.Some? == named
      invariant |widths| == i && forall j :: 0 <= j < i ==> widths[j] == sites[j].width
      invariant |schema| == if named then i else 0
      invariant named ==> forall j :: 0 <= j < i ==> schema[j] == sites[j].fields.value
    {
      if sites[i].fields.Some? != named {
        assert sites[i] in sites;
        return false;
      }
      if named {
        schema := schema + [sites[i].fields.value];
      }
      widths := widths + [sites[i].width];
    }
    ok := ValidateSchema(schema, widths);
    if named && !ok {
      ghost var i :| 0 <= i < |schema| && !SiteFormed(schema[i], widths[i]);
      assert sites[i] in sites;
    }
  }

  ghost predicate Known(sites: seq<Site>, e: Dependency) {
    && (exists s <- sites :: s.id == e.parent && !s.stall)
    && (exists s <- sites :: s.id == e.child)
  }

  /** Positions by identity. */
  ghost predicate Indexes(sites: seq<Site>, ids: map<string, nat>, n: nat)
    requires n <= |sites|
  {
    && (forall k :: k in ids ==> ids[k] < n && sites[ids[k]].id == k)
    && (forall i :: 0 <= i < n ==> sites[i].id in ids && ids[sites[i].id] == i)
  }

  lemma Found(sites: seq<Site>, ids: map<string, nat>, id: string)
    requires Indexes(sites, ids, |sites|)
    ensures id in ids <==> exists s <- sites :: s.id == id
    ensures forall s <- sites :: s.id == id ==> id in ids && sites[ids[id]] == s
  {
    forall s <- sites | s.id == id
      ensures id in ids && sites[ids[id]] == s
    {
      var i :| 0 <= i < |sites| && sites[i] == s;
    }
    if id in ids {
      assert sites[ids[id]] in sites;
    }
  }

  method IndexSites(sites: seq<Site>) returns (ids: Option<map<string, nat>>)
    ensures ids.Some? <==> Named(sites)
    ensures ids.Some? ==> Indexes(sites, ids.value, |sites|)
  {
    var known: map<string, nat> := map[];
    for n := 0 to |sites|
      invariant Indexes(sites, known, n)
      invariant Distinct(sites[..n]) && forall i :: 0 <= i < n ==>
        sites[i].id != "" && (sites[i].stall <==> sites[i].observationOf != "")
    {
      var s := sites[n];
      if s.id == "" || s.id in known || s.stall == (s.observationOf == "") {
        assert s in sites;
        return None;
      }
      known := known[s.id := n];
    }
    assert sites[..|sites|] == sites;
    ids := Some(known);
  }

  /** A transfer has its own track; a stall is on the track of the transfer it observes. */
  ghost predicate OnTrack(sites: seq<Site>, i: nat, track: nat)
    requires i < |sites|
  {
    track < |sites| &&
    if sites[i].stall then sites[track].id == sites[i].observationOf && !sites[track].stall else track == i
  }

  /** One of the first `n` sites observes site `t`. */
  ghost predicate Observed(sites: seq<Site>, n: nat, t: nat)
    requires n <= |sites| && t < |sites|
  {
    exists j :: 0 <= j < n && sites[j].stall && sites[j].observationOf == sites[t].id
  }

  method AssignTracks(sites: seq<Site>, ids: map<string, nat>) returns (tracks: seq<nat>, shared: seq<bool>, ok: bool)
    requires Indexes(sites, ids, |sites|)
    ensures ok <==> forall i :: 0 <= i < |sites| ==> ObservesTransfer(sites, sites[i])
    ensures ok ==> |tracks| == |shared| == |sites|
    ensures ok ==> forall i :: 0 <= i < |sites| ==> OnTrack(sites, i, tracks[i])
    ensures ok ==> forall t :: 0 <= t < |sites| ==> (shared[t] <==> Observed(sites, |sites|, t))
  {
    tracks, shared, ok := [], seq(|sites|, _ => false), true;
    for i := 0 to |sites|
      invariant |tracks| == i && |shared| == |sites|
      invariant forall j :: 0 <= j < i ==> ObservesTransfer(sites, sites[j]) && OnTrack(sites, j, tracks[j])
      invariant forall t :: 0 <= t < |sites| ==> (shared[t] <==> Observed(sites, i, t))
    {
      var site := sites[i];
      var track := i;
      Found(sites, ids, site.observationOf);
      OneMore(sites, i);
      if site.stall {
        if site.observationOf !in ids || sites[ids[site.observationOf]].stall {
          assert !ObservesTransfer(sites, sites[i]);
          return tracks, shared, false;
        }
        track := ids[site.observationOf];
        assert sites[track] in sites;
        assert forall t :: 0 <= t < |sites| && sites[t].id == site.observationOf ==> t == track;
        shared := shared[track := true];
      }
      hide ObservesTransfer, Observed;
      tracks := tracks + [track];
    }
  }

  lemma OneMore(sites: seq<Site>, n: nat)
    requires n < |sites|
    ensures forall t :: 0 <= t < |sites| ==>
      (Observed(sites, n + 1, t) <==>
        Observed(sites, n, t) || (sites[n].stall && sites[n].observationOf == sites[t].id))
  {
  }

  /** Every site is on its track, and exactly the observed tracks are shared. */
  ghost predicate Describes(sites: seq<Site>, d: Description) {
    && |d.tracks| == |d.stalls| == |d.shared| == |d.widths| == |sites|
    && (forall i :: 0 <= i < |sites| ==>
          d.stalls[i] == sites[i].stall && d.widths[i] == sites[i].width && OnTrack(sites, i, d.tracks[i]))
    && (forall t :: 0 <= t < |sites| ==> (d.shared[t] <==> Observed(sites, |sites|, t)))
  }

  function Assemble(sites: seq<Site>, tracks: seq<nat>, shared: seq<bool>, pairs: set<(nat, nat)>,
                    frequency: U64): Description {
    Description(tracks, seq(|sites|, i requires 0 <= i < |sites| => sites[i].stall), shared,
                seq<nat>(|sites|, i requires 0 <= i < |sites| => sites[i].width), pairs, frequency)
  }

  lemma AssembledDescribes(sites: seq<Site>, tracks: seq<nat>, shared: seq<bool>, pairs: set<(nat, nat)>,
                           frequency: U64)
    requires |tracks| == |shared| == |sites|
    requires forall i :: 0 <= i < |sites| ==> OnTrack(sites, i, tracks[i])
    requires forall t :: 0 <= t < |sites| ==> (shared[t] <==> Observed(sites, |sites|, t))
    ensures Describes(sites, Assemble(sites, tracks, shared, pairs, frequency))
  {
    hide OnTrack, Observed;
  }

  lemma DescribesValid(sites: seq<Site>, d: Description)
    requires Describes(sites, d) && 0 < d.frequency
    requires forall p <- d.dependencies :: p.0 < |sites| && p.1 < |sites| && !sites[p.0].stall
    ensures d.Valid()
  {
    forall i | 0 <= i < |sites|
      ensures OnTrack(sites, i, d.tracks[i]) && (sites[i].stall ==> d.shared[d.tracks[i]])
    {
      assert sites[i].stall ==> Observed(sites, |sites|, d.tracks[i]);
    }
  }

  /** The description the exporter works from and how it displays each site. The rules checked are exactly
      those the exporter relies on. */
  method Describe(sites: seq<Site>, dependencies: seq<Dependency>, frequency: U64)
    returns (d: Option<(Description, seq<Captions.View>)>)
    ensures d.Some? <==>
      SitesWellFormed(sites) && SchemaFormed(sites) && 0 < frequency && forall e <- dependencies :: Known(sites, e)
    ensures d.Some? ==> d.value.0.Valid() && d.value.0.frequency == frequency && d.value.1 == ViewsOf(sites)
    ensures d.Some? ==> Describes(sites, d.value.0) && Translates(sites, dependencies, d.value.0.dependencies)
    ensures d.Some? ==> Captions.Viewed(d.value.0, d.value.1)
  {
    hide Indexes, ObservesTransfer, Known, Named, Describes, OnTrack, Observed, Description.Valid, Translates;
    hide SchemaFormed, Captions.Viewed;
    if sites == [] || |sites| >= 0x7fff_ffff || frequency == 0 {
      return None;
    }
    var indexed := IndexSites(sites);
    if indexed == None {
      return None;
    }
    var formed := CheckSchema(sites);
    if !formed {
      return None;
    }
    var tracks, shared, ok := AssignTracks(sites, indexed.value);
    if !ok {
      return None;
    }
    var pairs := CollectDependencies(sites, indexed.value, dependencies);
    if pairs == None {
      return None;
    }
    AssembledDescribes(sites, tracks, shared, pairs.value, frequency);
    var assembled := Assemble(sites, tracks, shared, pairs.value, frequency);
    DescribesValid(sites, assembled);
    SchemaViewed(sites, assembled);
    var views := BuildViews(sites);
    d := Some((assembled, views));
  }

  /** The views of an accepted table are those of its description. */
  lemma SchemaViewed(sites: seq<Site>, d: Description)
    requires sites != [] && SchemaFormed(sites) && Describes(sites, d)
    ensures Captions.Viewed(d, ViewsOf(sites))
  {
    hide SiteFormed, OnTrack, Observed;
    forall i | 0 <= i < |sites|
      ensures Captions.SiteViewed(d, ViewsOf(sites), i)
    {
      assert sites[i] in sites && sites[0] in sites;
    }
  }

  /** The pairs are the dependencies by position. */
  ghost predicate Translates(sites: seq<Site>, dependencies: seq<Dependency>, pairs: set<(nat, nat)>) {
    forall p: (nat, nat) :: p in pairs <==>
      p.0 < |sites| && p.1 < |sites| && Dependency(sites[p.0].id, sites[p.1].id) in dependencies
  }

  lemma TranslateOne(sites: seq<Site>, ids: map<string, nat>, done: seq<Dependency>, e: Dependency,
                     pairs: set<(nat, nat)>)
    requires Indexes(sites, ids, |sites|) && Translates(sites, done, pairs) && e.parent in ids && e.child in ids
    ensures Translates(sites, done + [e], pairs + {(ids[e.parent], ids[e.child])})
  {
  }

  method CollectDependencies(sites: seq<Site>, ids: map<string, nat>, dependencies: seq<Dependency>)
    returns (pairs: Option<set<(nat, nat)>>)
    requires Indexes(sites, ids, |sites|)
    ensures pairs.Some? <==> forall e <- dependencies :: Known(sites, e)
    ensures pairs.Some? ==> Translates(sites, dependencies, pairs.value)
    ensures pairs.Some? ==> forall p <- pairs.value :: p.0 < |sites| && p.1 < |sites| && !sites[p.0].stall
  {
    var found: set<(nat, nat)> := {};
    for n := 0 to |dependencies|
      invariant forall e <- dependencies[..n] :: Known(sites, e)
      invariant Translates(sites, dependencies[..n], found)
      invariant forall p <- found :: p.0 < |sites| && p.1 < |sites| && !sites[p.0].stall
    {
      var e := dependencies[n];
      Found(sites, ids, e.parent);
      Found(sites, ids, e.child);
      assert e in dependencies;
      if e.parent !in ids || e.child !in ids || sites[ids[e.parent]].stall {
        return None;
      }
      assert sites[ids[e.parent]] in sites;
      TranslateOne(sites, ids, dependencies[..n], e, found);
      assert dependencies[..n + 1] == dependencies[..n] + [e];
      found := found + {(ids[e.parent], ids[e.child])};
    }
    assert dependencies[..|dependencies|] == dependencies;
    pairs := Some(found);
  }
}

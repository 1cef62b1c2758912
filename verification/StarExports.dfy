/** What `export *` chains mean for a name that a module does not declare itself. */
module StarExports {
  import opened FiniteSets
  import opened Reachability
  import opened DeclarationGraph
  import opened ClosureSteps
  import opened RenderedSections

  ghost predicate StarEdge(p: Program, f: File, g: File) {
    f in p.files && g in p.files && exists d :: d in p.files[f].exportStars && d.Repo? && d.file == g
  }

  ghost function StarEdges(p: Program): (File, File) -> bool {
    (f, g) => StarEdge(p, f, g)
  }

  /** The file itself gives `name` a meaning, or has a star export that cannot be resolved. */
  ghost predicate Provides(p: Program, f: File, name: string) {
    f in p.files
    && (Declared(p, Key(f, true, name)) || Reexported(p, Key(f, true, name)) || Failure in p.files[f].exportStars)
  }

  /** No file along any `export *` path from `f` provides `name`. */
  ghost predicate Unprovided(p: Program, f: File, name: string) {
    forall g :: Reaches(StarEdges(p), f, g) ==> !Provides(p, g, name)
  }

  ghost predicate OnStarCycle(p: Program, g: File) {
    exists h :: StarEdge(p, g, h) && Reaches(StarEdges(p), h, g)
  }

  ghost predicate StarAcyclicFrom(p: Program, f: File) {
    forall g :: Reaches(StarEdges(p), f, g) ==> !OnStarCycle(p, g)
  }

  // ---------- a failed search met no provider and no cycle ----------

  lemma MissingEdge(p: Program, f: File, g: File, name: string)
    requires StarEdge(p, f, g) && Missing(p, Key(f, true, name))
    ensures Missing(p, Key(g, true, name)) && Rank(p, Key(g, true, name)) < Rank(p, Key(f, true, name))
  {
    var d :| d in p.files[f].exportStars && d.Repo? && d.file == g;
    MissingStar(p, Key(f, true, name), d);
  }

  lemma {:induction false} MissingAlong(p: Program, q: seq<File>, f: File, g: File, name: string)
    requires Links(StarEdges(p), q, f, g) && Missing(p, Key(f, true, name))
    ensures Missing(p, Key(g, true, name)) && Rank(p, Key(g, true, name)) <= Rank(p, Key(f, true, name))
    decreases |q|
  {
    if |q| > 1 {
      assert StarEdges(p)(q[0], q[1]);
      MissingEdge(p, f, q[1], name);
      assert Links(StarEdges(p), q[1..], q[1], g);
      MissingAlong(p, q[1..], q[1], g, name);
    }
  }

  lemma MissingIsUnprovided(p: Program, f: File, name: string)
    requires Missing(p, Key(f, true, name))
    ensures Unprovided(p, f, name) && StarAcyclicFrom(p, f)
  {
    forall g | Reaches(StarEdges(p), f, g) ensures !Provides(p, g, name) && !OnStarCycle(p, g) {
      var q :| Links(StarEdges(p), q, f, g);
      MissingAlong(p, q, f, g, name);
      if h :| StarEdge(p, g, h) && Reaches(StarEdges(p), h, g) {
        MissingEdge(p, g, h, name);
        var back :| Links(StarEdges(p), back, h, g);
        MissingAlong(p, back, h, g, name);
      }
    }
  }

  // ---------- without either, the search fails ----------

  lemma Inherited(p: Program, f: File, g: File, name: string)
    requires StarEdge(p, f, g)
    ensures Unprovided(p, f, name) ==> Unprovided(p, g, name)
    ensures StarAcyclicFrom(p, f) ==> StarAcyclicFrom(p, g)
  {
    forall h | Reaches(StarEdges(p), g, h) ensures Reaches(StarEdges(p), f, h) {
      assert StarEdges(p)(f, g);
      ReachesStep(StarEdges(p), f, g, h);
    }
  }

  /** `above` holds the files already on the way to `f`; a cycle-free search cannot revisit them. */
  lemma {:induction false} SearchFails(p: Program, f: File, name: string, above: set<File>) returns (depth: nat)
    requires p.Valid() && f in p.files && above <= p.files.Keys
    requires Unprovided(p, f, name) && StarAcyclicFrom(p, f)
    requires f !in above && forall a :: a in above ==> Reaches(StarEdges(p), a, f)
    ensures MissingWithin(p, Key(f, true, name), depth)
    decreases |p.files.Keys - above|
  {
    var k := Key(f, true, name);
    ReachesRefl(StarEdges(p), f);
    assert !Provides(p, f, name) && !OnStarCycle(p, f);
    RoomShrinks(p.files.Keys, above, f);
    forall d | d in p.files[f].exportStars ensures Skipped(p, k, d) {
      if d.Repo? {
        KnownStar(p, f, d);
        var g := d.file;
        assert StarEdge(p, f, g) && StarEdges(p)(f, g);
        Inherited(p, f, g, name);
        assert g !in above + {f} by {
          assert forall a :: a in above + {f} ==> Reaches(StarEdges(p), a, f);
        }
        forall a | a in above + {f} ensures Reaches(StarEdges(p), a, g) {
          ReachesEdge(StarEdges(p), a, f, g);
        }
        var below := SearchFails(p, g, name, above + {f});
      }
    }
    AllSkipped(p, k);
    depth :| MissingWithin(p, k, depth);
  }

  /** The walk answers "not found" exactly for names without a provider whose search meets no cycle. */
  lemma MissingIff(p: Program, f: File, name: string)
    requires p.Valid() && f in p.files
    ensures Missing(p, Key(f, true, name)) <==> Unprovided(p, f, name) && StarAcyclicFrom(p, f)
  {
    if Missing(p, Key(f, true, name)) {
      MissingIsUnprovided(p, f, name);
    }
    if Unprovided(p, f, name) && StarAcyclicFrom(p, f) {
      var depth := SearchFails(p, f, name, {});
    }
  }

  // ---------- what that means for a rendered name ----------

  lemma UnprovidedOwnsNothing(p: Program, f: File, name: string, s: Section)
    requires p.Valid() && f in p.files && Unprovided(p, f, name)
    ensures !KeyOwn(p, Key(f, true, name), s)
  {
    ReachesRefl(StarEdges(p), f);
    assert !Provides(p, f, name);
  }

  lemma UnprovidedStep(p: Program, f: File, name: string, j: Key)
    requires p.Valid() && f in p.files && Unprovided(p, f, name) && KeyEdge(p, Key(f, true, name), j)
    ensures j.exported && j.name == name && StarEdge(p, f, j.file)
  {
    ReachesRefl(StarEdges(p), f);
    assert !Provides(p, f, name);
    var stars := p.files[f].exportStars;
    var i :| 0 <= i < |stars| && ToKey(j) == if stars[i].Repo? then ToKey(StarKey(stars[i], Key(f, true, name)))
                                             else ToFallback(f);
    assert stars[i].Repo? && j == StarKey(stars[i], Key(f, true, name));
    KnownStar(p, f, stars[i]);
    assert p.Knows(stars[i]);
  }

  lemma {:induction false} UnprovidedCollectsNothing(p: Program, q: seq<Key>, f: File, name: string, b: Key, s: Section)
    requires p.Valid() && f in p.files && Unprovided(p, f, name)
    requires Links(KeyEdges(p), q, Key(f, true, name), b)
    ensures !KeyOwn(p, b, s)
    decreases |q|
  {
    if |q| > 1 {
      assert KeyEdges(p)(q[0], q[1]);
      UnprovidedStep(p, f, name, q[1]);
      Inherited(p, f, q[1].file, name);
      assert Links(KeyEdges(p), q[1..], q[1], b);
      UnprovidedCollectsNothing(p, q[1..], q[1].file, name, b, s);
    } else {
      UnprovidedOwnsNothing(p, f, name, s);
    }
  }

  /** A name that nothing provides is rendered as the whole owner file set exactly when no star cycle
      can be reached from the owner; behind a cycle it is rendered as nothing at all. */
  lemma UnprovidedName(p: Program, f: File, name: string)
    requires p.Valid() && f in p.files && Unprovided(p, f, name)
    ensures (forall s :: InRender(p, f, name, s) <==> InFallback(p, f, s)) <==> StarAcyclicFrom(p, f)
    ensures !StarAcyclicFrom(p, f) ==> forall s :: !InRender(p, f, name, s)
  {
    MissingIff(p, f, name);
    if !StarAcyclicFrom(p, f) {
      forall s ensures !InRender(p, f, name, s) {
        if InClosure(p, Key(f, true, name), s) {
          var q, b :| Links(KeyEdges(p), q, Key(f, true, name), b) && KeyOwns(p)(b, s);
          UnprovidedCollectsNothing(p, q, f, name, b, s);
        }
      }
      var own := Section("*", p.files[f].text);
      assert FileTexts(p)(f, own);
      CollectsOwn(FileEdges(p), FileTexts(p), f, own);
      assert InFallback(p, f, own);
    }
  }

  // ---------- a provided name, and how a cycle loses it ----------

  /** Searching `g` for the name fails: no provider and no cycle is met. */
  ghost predicate Fails(p: Program, g: File, name: string) {
    Unprovided(p, g, name) && StarAcyclicFrom(p, g)
  }

  /** `g` is the first star entry of `f`, in order, whose search does not fail. */
  ghost predicate LeadsFirst(p: Program, f: File, g: File, name: string) {
    f in p.files
    && var stars := p.files[f].exportStars;
       exists i :: 0 <= i < |stars|
         && stars[i].Repo? && stars[i].file == g && !Fails(p, g, name)
         && forall j :: 0 <= j < i ==> stars[j].External? || (stars[j].Repo? && Fails(p, stars[j].file, name))
  }

  /** The search goes on only from files that do not provide the name themselves. */
  ghost function SearchEdges(p: Program, name: string): (File, File) -> bool {
    (f, g) => !Provides(p, f, name) && LeadsFirst(p, f, g, name)
  }

  /** The provider that the ordered search from `f` comes to before any other. */
  ghost predicate FirstProvider(p: Program, f: File, name: string, g: File) {
    Reaches(SearchEdges(p, name), f, g) && Provides(p, g, name)
  }

  ghost predicate OnSearchCycle(p: Program, name: string, g: File) {
    exists h :: SearchEdges(p, name)(g, h) && Reaches(SearchEdges(p, name), h, g)
  }

  /** The ordered search from `f` runs into a cycle instead of a provider. */
  ghost predicate SearchLoops(p: Program, f: File, name: string) {
    exists g :: Reaches(SearchEdges(p, name), f, g) && OnSearchCycle(p, name, g)
  }

  lemma SameFirst(p: Program, f: File, g: File, h: File, name: string)
    requires LeadsFirst(p, f, g, name) && LeadsFirst(p, f, h, name)
    ensures g == h
  {
  }

  /** The search has one way to go, so what it comes to first is the same from every file on its way. */
  lemma {:induction false} SearchEndsOnce(p: Program, name: string, f: File, q: seq<File>, g: File, r: seq<File>, h: File)
    requires Links(SearchEdges(p, name), q, f, g) && Links(SearchEdges(p, name), r, f, h)
    requires Provides(p, g, name)
    ensures |r| <= |q| && Links(SearchEdges(p, name), q[|r| - 1..], h, g)
    decreases |r|
  {
    assert |q| > 1 ==> SearchEdges(p, name)(q[0], q[1]);
    if |r| > 1 {
      assert SearchEdges(p, name)(r[0], r[1]);
      assert |q| > 1;
      SameFirst(p, f, q[1], r[1], name);
      assert Links(SearchEdges(p, name), q[1..], q[1], g) && Links(SearchEdges(p, name), r[1..], q[1], h);
      SearchEndsOnce(p, name, q[1], q[1..], g, r[1..], h);
      assert q[1..][|r[1..]| - 1..] == q[|r| - 1..];
    } else {
      assert q[0..] == q;
    }
  }

  lemma FirstProviderIsUnique(p: Program, f: File, name: string, g: File, h: File)
    requires FirstProvider(p, f, name, g) && FirstProvider(p, f, name, h)
    ensures g == h
  {
    var q :| Links(SearchEdges(p, name), q, f, g);
    var r :| Links(SearchEdges(p, name), r, f, h);
    SearchEndsOnce(p, name, f, q, g, r, h);
    SearchEndsOnce(p, name, f, r, h, q, g);
    assert q[|r| - 1..][0] == h;
  }

  /** The one star entry the search goes on with is all that a file without the name depends on. */
  lemma StepsToFirst(p: Program, f: File, name: string) returns (h: File)
    requires p.Valid() && f in p.files && !Provides(p, f, name) && !Fails(p, f, name)
    ensures h in p.files && StarEdge(p, f, h) && SearchEdges(p, name)(f, h) && !Fails(p, h, name)
    ensures KeyEdge(p, Key(f, true, name), Key(h, true, name))
    ensures forall j :: KeyEdge(p, Key(f, true, name), j) ==> j == Key(h, true, name)
    ensures forall s :: !KeyOwn(p, Key(f, true, name), s)
  {
    var k := Key(f, true, name);
    MissingIff(p, f, name);
    var d, i := FirstStar(p, k);
    KnownStar(p, f, d);
    h := d.file;
    assert StarEdge(p, f, h);
    MissingIff(p, h, name);
    var stars := p.files[f].exportStars;
    forall j | 0 <= j < i ensures stars[j].External? || (stars[j].Repo? && Fails(p, stars[j].file, name)) {
      if stars[j].Repo? {
        MissingIsUnprovided(p, stars[j].file, name);
      }
    }
    assert LeadsFirst(p, f, h, name);
    OnlyToFirst(p, k, i);
  }

  lemma OnlyToFirst(p: Program, k: Key, i: nat)
    requires k.file in p.files && k.exported && !Provides(p, k.file, k.name)
    requires i < |p.files[k.file].exportStars|
    requires var stars := p.files[k.file].exportStars;
      !Skipped(p, k, stars[i]) && forall j :: 0 <= j < i ==> Skipped(p, k, stars[j])
    ensures p.files[k.file].exportStars[i].Repo?
    ensures forall t :: HasTarget(p, k, t) ==> t == ToKey(StarKey(p.files[k.file].exportStars[i], k))
  {
  }

  /** Every file on the way of the search renders as the file the search goes on with. */
  lemma {:induction false} SameAlongSearch(p: Program, name: string, q: seq<File>, f: File, g: File)
    requires p.Valid() && f in p.files && !Fails(p, f, name) && Links(SearchEdges(p, name), q, f, g)
    ensures forall s :: InClosure(p, Key(f, true, name), s) <==> InClosure(p, Key(g, true, name), s)
    decreases |q|
  {
    if |q| > 1 {
      assert SearchEdges(p, name)(q[0], q[1]);
      var h := StepsToFirst(p, f, name);
      SameFirst(p, f, h, q[1], name);
      assert Links(SearchEdges(p, name), q[1..], h, g);
      SameAlongSearch(p, name, q[1..], h, g);
      var k, j := Key(f, true, name), Key(h, true, name);
      forall s ensures InClosure(p, k, s) <==> InClosure(p, j, s) {
        if InClosure(p, k, s) {
          var c := CollectsUnfold(KeyEdges(p), KeyOwns(p), k, s);
        }
        if InClosure(p, j, s) {
          CollectsStep(KeyEdges(p), KeyOwns(p), k, j, s);
        }
      }
    }
  }

  /** A search that never comes to a provider collects nothing. */
  lemma {:induction false} EndlessCollectsNothing(p: Program, name: string, q: seq<Key>, f: File, b: Key, s: Section)
    requires p.Valid() && f in p.files && !Fails(p, f, name) && forall g :: !FirstProvider(p, f, name, g)
    requires Links(KeyEdges(p), q, Key(f, true, name), b)
    ensures !KeyOwn(p, b, s)
    decreases |q|
  {
    ReachesRefl(SearchEdges(p, name), f);
    assert !FirstProvider(p, f, name, f);
    var h := StepsToFirst(p, f, name);
    if |q| > 1 {
      assert KeyEdges(p)(q[0], q[1]);
      forall g ensures !FirstProvider(p, h, name, g) {
        if FirstProvider(p, h, name, g) {
          ReachesStep(SearchEdges(p, name), f, h, g);
          assert FirstProvider(p, f, name, g);
        }
      }
      assert Links(KeyEdges(p), q[1..], Key(h, true, name), b);
      EndlessCollectsNothing(p, name, q[1..], h, b, s);
    }
  }

  /** Whatever cycles there are: an export that is not missing is rendered as the closure of exactly the provider
      the ordered search comes to first, and as nothing when the search comes to none. */
  lemma SearchDecides(p: Program, f: File, name: string)
    requires p.Valid() && f in p.files && !Fails(p, f, name)
    ensures forall g, s :: FirstProvider(p, f, name, g) ==> (InRender(p, f, name, s) <==> InClosure(p, Key(g, true, name), s))
    ensures forall g, h :: FirstProvider(p, f, name, g) && FirstProvider(p, f, name, h) ==> g == h
    ensures (forall g :: !FirstProvider(p, f, name, g)) ==> forall s :: !InRender(p, f, name, s)
  {
    MissingIff(p, f, name);
    forall g, s | FirstProvider(p, f, name, g) ensures InRender(p, f, name, s) <==> InClosure(p, Key(g, true, name), s) {
      var q :| Links(SearchEdges(p, name), q, f, g);
      SameAlongSearch(p, name, q, f, g);
    }
    forall g, h | FirstProvider(p, f, name, g) && FirstProvider(p, f, name, h) ensures g == h {
      FirstProviderIsUnique(p, f, name, g, h);
    }
    if forall g :: !FirstProvider(p, f, name, g) {
      forall s ensures !InRender(p, f, name, s) {
        if InClosure(p, Key(f, true, name), s) {
          var q, b :| Links(KeyEdges(p), q, Key(f, true, name), b) && KeyOwns(p)(b, s);
          EndlessCollectsNothing(p, name, q, f, b, s);
        }
      }
    }
  }

  /** `above` holds the files already on the way to `f`. */
  lemma {:induction false} SearchFinds(p: Program, f: File, name: string, above: set<File>) returns (g: File)
    requires p.Valid() && f in p.files && above <= p.files.Keys && !Fails(p, f, name) && !SearchLoops(p, f, name)
    requires f !in above && forall a :: a in above ==> Reaches(SearchEdges(p, name), a, f)
    ensures FirstProvider(p, f, name, g)
    decreases |p.files.Keys - above|
  {
    ReachesRefl(SearchEdges(p, name), f);
    if Provides(p, f, name) {
      g := f;
    } else {
      RoomShrinks(p.files.Keys, above, f);
      var h := StepsToFirst(p, f, name);
      assert h !in above + {f} by {
        assert !OnSearchCycle(p, name, f);
        assert forall a :: a in above + {f} ==> Reaches(SearchEdges(p, name), a, f);
      }
      forall a | a in above + {f} ensures Reaches(SearchEdges(p, name), a, h) {
        ReachesEdge(SearchEdges(p, name), a, f, h);
      }
      assert !SearchLoops(p, h, name) by {
        if c :| Reaches(SearchEdges(p, name), h, c) && OnSearchCycle(p, name, c) {
          ReachesStep(SearchEdges(p, name), f, h, c);
        }
      }
      g := SearchFinds(p, h, name, above + {f});
      ReachesStep(SearchEdges(p, name), f, h, g);
    }
  }

  /** From a search cycle no provider is ever reached. */
  lemma {:induction false} CycleNeverEnds(p: Program, name: string, q: seq<File>, c: File, g: File)
    requires OnSearchCycle(p, name, c) && Links(SearchEdges(p, name), q, c, g)
    ensures !Provides(p, g, name)
  {
    if Provides(p, g, name) {
      var h :| SearchEdges(p, name)(c, h) && Reaches(SearchEdges(p, name), h, c);
      var back :| Links(SearchEdges(p, name), back, h, c);
      var round := [c] + back;
      assert Links(SearchEdges(p, name), round, c, c);
      SearchEndsOnce(p, name, c, q, g, round, c);
      CycleNeverEnds(p, name, q[|round| - 1..], c, g);
    }
  }

  /** A name that is not missing has a first provider exactly when the ordered search does not loop. */
  lemma HiddenIff(p: Program, f: File, name: string)
    requires p.Valid() && f in p.files && !Fails(p, f, name)
    ensures (forall g :: !FirstProvider(p, f, name, g)) <==> SearchLoops(p, f, name)
  {
    if SearchLoops(p, f, name) {
      var c :| Reaches(SearchEdges(p, name), f, c) && OnSearchCycle(p, name, c);
      forall g ensures !FirstProvider(p, f, name, g) {
        if FirstProvider(p, f, name, g) {
          var q :| Links(SearchEdges(p, name), q, f, g);
          var r :| Links(SearchEdges(p, name), r, f, c);
          SearchEndsOnce(p, name, f, q, g, r, c);
          CycleNeverEnds(p, name, q[|r| - 1..], c, g);
        }
      }
    } else {
      var g := SearchFinds(p, f, name, {});
    }
  }

  lemma {:induction false} SearchFollowsStars(p: Program, name: string, q: seq<File>, f: File, g: File)
    requires p.Valid() && f in p.files && !Fails(p, f, name) && Links(SearchEdges(p, name), q, f, g)
    ensures Reaches(StarEdges(p), f, g)
    decreases |q|
  {
    ReachesRefl(StarEdges(p), f);
    if |q| > 1 {
      assert SearchEdges(p, name)(q[0], q[1]);
      var h := StepsToFirst(p, f, name);
      SameFirst(p, f, h, q[1], name);
      assert Links(SearchEdges(p, name), q[1..], h, g);
      SearchFollowsStars(p, name, q[1..], h, g);
      assert StarEdges(p)(f, h);
      ReachesStep(StarEdges(p), f, h, g);
    }
  }

  /** In particular, where no star cycle can be reached a provided name is rendered as its first provider's closure. */
  lemma ProvidedName(p: Program, f: File, name: string) returns (g: File)
    requires p.Valid() && f in p.files && !Unprovided(p, f, name) && StarAcyclicFrom(p, f)
    ensures FirstProvider(p, f, name, g)
    ensures forall h :: FirstProvider(p, f, name, h) ==> h == g
    ensures forall s :: InRender(p, f, name, s) <==> InClosure(p, Key(g, true, name), s)
  {
    assert !SearchLoops(p, f, name) by {
      if c, h :| Reaches(SearchEdges(p, name), f, c) && SearchEdges(p, name)(c, h) && Reaches(SearchEdges(p, name), h, c) {
        LoopIsStarCycle(p, f, name, c, h);
      }
    }
    g := SearchFinds(p, f, name, {});
    SearchDecides(p, f, name);
  }

  lemma {:induction false} SearchKeepsOn(p: Program, name: string, q: seq<File>, f: File, g: File)
    requires p.Valid() && f in p.files && !Fails(p, f, name) && Links(SearchEdges(p, name), q, f, g)
    ensures g in p.files && !Fails(p, g, name)
    decreases |q|
  {
    if |q| > 1 {
      assert SearchEdges(p, name)(q[0], q[1]);
      var h := StepsToFirst(p, f, name);
      SameFirst(p, f, h, q[1], name);
      assert Links(SearchEdges(p, name), q[1..], h, g);
      SearchKeepsOn(p, name, q[1..], h, g);
    }
  }

  lemma LoopIsStarCycle(p: Program, f: File, name: string, c: File, h: File)
    requires p.Valid() && f in p.files && !Fails(p, f, name)
    requires Reaches(SearchEdges(p, name), f, c) && SearchEdges(p, name)(c, h) && Reaches(SearchEdges(p, name), h, c)
    ensures Reaches(StarEdges(p), f, c) && OnStarCycle(p, c)
  {
    var q :| Links(SearchEdges(p, name), q, f, c);
    var back :| Links(SearchEdges(p, name), back, h, c);
    SearchFollowsStars(p, name, q, f, c);
    SearchKeepsOn(p, name, q, f, c);
    var next := StepsToFirst(p, c, name);
    SameFirst(p, c, h, next, name);
    SearchFollowsStars(p, name, back, h, c);
  }

  lemma FirstStar(p: Program, k: Key) returns (d: Dependency, i: nat)
    requires k.file in p.files && k.exported && !Missing(p, k) && !Provides(p, k.file, k.name)
    ensures i < |p.files[k.file].exportStars| && d == p.files[k.file].exportStars[i]
    ensures d.Repo? && !Missing(p, StarKey(d, k))
    ensures forall j :: 0 <= j < i ==> Skipped(p, k, p.files[k.file].exportStars[j])
    ensures KeyEdge(p, k, StarKey(d, k))
  {
    var stars := p.files[k.file].exportStars;
    i := 0;
    while i < |stars| && Skipped(p, k, stars[i])
      invariant i <= |stars| && SkippedAll(p, k, stars[..i])
    {
      SkippedNext(p, k, stars, i);
      i := i + 1;
    }
    if i == |stars| {
      assert stars[..i] == stars;
      AllSkipped(p, k);
    } else {
      d := stars[i];
      forall j | 0 <= j < i ensures Skipped(p, k, stars[j]) {
        assert stars[j] == stars[..i][j];
      }
      assert StarTarget(p, k, ToKey(StarKey(d, k)));
    }
  }

  /** The first entry of the search that is not external decides at once when it fails or declares the name: the whole
      file, or what that entry exports, and nothing after it counts. */
  lemma FirstEntryDecides(p: Program, f: File, name: string, i: nat, s: Section)
    requires p.Valid() && f in p.files && name !in p.files[f].declarations && name !in p.files[f].reexports
    requires var stars := p.files[f].exportStars; i < |stars| && forall j :: 0 <= j < i ==> stars[j].External?
    ensures p.files[f].exportStars[i] == Failure ==> (InRender(p, f, name, s) <==> InFallback(p, f, s))
    ensures var d := p.files[f].exportStars[i];
      d.Repo? && d.file in p.files && name in p.files[d.file].declarations ==> (InRender(p, f, name, s) <==> InRender(p, d.file, name, s))
  {
    var d := p.files[f].exportStars[i];
    KnownStar(p, f, d);
    if d == Failure || (d.Repo? && name in p.files[d.file].declarations) {
      assert !Skipped(p, Key(f, true, name), d);
      SearchedIs(p, f, name, i, s);
    }
  }

  const EMPTY_INDEX := FileIndex("", [], map[], [], [], map[], map[], [])

  /** `a` re-exports `b` and then `c`, `b` re-exports `a`, and `c` declares `n`. */
  const LOOPED := Program(map[
    "a" := EMPTY_INDEX.(exportStars := [Repo("b", "*"), Repo("c", "*")]),
    "b" := EMPTY_INDEX.(exportStars := [Repo("a", "*")]),
    "c" := EMPTY_INDEX.(declarations := map["n" := [Statement("type n = 1;", [], [])]])])

  lemma LoopedNext(k: Key, j: Key)
    requires k == Key("a", true, "n") || k == Key("b", true, "n")
    requires !Missing(LOOPED, Key("b", true, "n")) && KeyEdge(LOOPED, k, j)
    ensures j == Key("a", true, "n") || j == Key("b", true, "n")
  {
    assert StarTarget(LOOPED, k, ToKey(j));
    var stars := LOOPED.files[k.file].exportStars;
    var i :| 0 <= i < |stars|
      && (forall j :: 0 <= j < i ==> Skipped(LOOPED, k, stars[j]))
      && !Skipped(LOOPED, k, stars[i])
      && ToKey(j) == if stars[i].Repo? then ToKey(StarKey(stars[i], k)) else ToFallback(k.file);
    if k.file == "a" {
      assert stars[0] == Repo("b", "*");
      assert StarKey(stars[0], k) == Key("b", true, "n");
      assert !Skipped(LOOPED, k, stars[0]);
      assert i == 0;
    } else {
      assert stars == [Repo("a", "*")];
    }
  }

  lemma {:induction false} LoopedPath(q: seq<Key>, k: Key, b: Key, s: Section)
    requires k == Key("a", true, "n") || k == Key("b", true, "n")
    requires !Missing(LOOPED, Key("b", true, "n")) && Links(KeyEdges(LOOPED), q, k, b)
    ensures !KeyOwn(LOOPED, b, s)
    decreases |q|
  {
    if |q| > 1 {
      assert KeyEdges(LOOPED)(q[0], q[1]);
      LoopedNext(k, q[1]);
      assert Links(KeyEdges(LOOPED), q[1..], q[1], b);
      LoopedPath(q[1..], q[1], b, s);
    }
  }

  /** A star cycle ahead of the provider hides it: `c` provides `n` to `a`, yet nothing is rendered. */
  lemma CycleHidesProvider()
    ensures LOOPED.Valid() && !Unprovided(LOOPED, "a", "n")
    ensures forall s :: !InRender(LOOPED, "a", "n", s)
  {
    assert StarEdge(LOOPED, "a", "c") by {
      assert Repo("c", "*") in LOOPED.files["a"].exportStars;
    }
    assert StarEdge(LOOPED, "a", "b") by {
      assert Repo("b", "*") in LOOPED.files["a"].exportStars;
    }
    assert StarEdge(LOOPED, "b", "a") by {
      assert Repo("a", "*") in LOOPED.files["b"].exportStars;
    }
    assert StarEdges(LOOPED)("a", "c") && StarEdges(LOOPED)("a", "b");
    ReachesRefl(StarEdges(LOOPED), "c");
    ReachesStep(StarEdges(LOOPED), "a", "c", "c");
    assert Provides(LOOPED, "c", "n");
    ReachesRefl(StarEdges(LOOPED), "b");
    ReachesStep(StarEdges(LOOPED), "a", "b", "b");
    assert OnStarCycle(LOOPED, "b");
    assert !StarAcyclicFrom(LOOPED, "b");
    MissingIff(LOOPED, "a", "n");
    MissingIff(LOOPED, "b", "n");
    forall s ensures !InRender(LOOPED, "a", "n", s) {
      if InClosure(LOOPED, Key("a", true, "n"), s) {
        var q, b :| Links(KeyEdges(LOOPED), q, Key("a", true, "n"), b) && KeyOwns(LOOPED)(b, s);
        LoopedPath(q, Key("a", true, "n"), b, s);
      }
    }
  }
}

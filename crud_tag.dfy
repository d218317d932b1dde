/** Data access for `tags`: the get-or-create loop over a list of names. */
module CrudTag {
  import opened Results
  import opened Models
  import opened Query
  import opened Store
  import opened Transitions

  /** The part of the store the loop reads and writes: the tag table and the id allocator. */
  datatype Catalogue = Catalogue(tags: map<int, Tag>, nextId: int)
  {
    /** Every tag name in the catalogue. */
    function Names(): set<string>
    {
      set k | k in tags :: tags[k].name
    }

    /** Keys below the allocator and stored in their row, as in the store. */
    ghost predicate Keyed()
    {
      1 <= nextId && TagsKeyed(tags, nextId)
    }

    /** Keyed, and the store's unique index on the tag name holds. */
    ghost predicate Valid()
    {
      Keyed() && TagNamesUnique(tags)
    }

    /** Every row of `this` is still in `c`, unchanged, and the allocator did not go back. */
    ghost predicate GrowsInto(c: Catalogue)
    {
      && nextId <= c.nextId
      && (forall k :: k in tags ==> k in c.tags && c.tags[k] == tags[k])
    }
  }

  /** One iteration: the tag called `name`, inserted with the next key when the catalogue
      has no row of that name. */
  function Step(c: Catalogue, name: string): (Catalogue, Tag)
  {
    var found := First(c.tags, (t: Tag) => t.name == name, c.nextId);
    if found.Some? then (c, c.tags[found.value])
    else
      var t := Tag(c.nextId, name);
      (Catalogue(c.tags[t.id := t], t.id + 1), t)
  }

  /** The whole loop: the names are handled left to right, each seeing the rows the
      earlier ones inserted. */
  function Resolve(c: Catalogue, names: seq<string>): (r: (Catalogue, seq<Tag>))
    ensures |r.1| == |names|
  {
    if names == [] then (c, [])
    else
      var (c1, r1) := Resolve(c, names[..|names| - 1]);
      var (c2, t) := Step(c1, names[|names| - 1]);
      (c2, r1 + [t])
  }

  /** One iteration returns a stored tag of the requested name; nothing already stored changes. */
  lemma StepStores(c: Catalogue, name: string)
    requires c.Keyed()
    ensures var (c', t) := Step(c, name);
      c'.Keyed() && c.GrowsInto(c') && t.name == name && t.id in c'.tags && c'.tags[t.id] == t
  {
  }

  /** One iteration finds the existing row of that name or inserts a row no name clashes
      with; nothing already stored changes. */
  lemma StepSpec(c: Catalogue, name: string)
    requires c.Valid()
    ensures var (c', t) := Step(c, name);
      && c'.Valid()
      && c.GrowsInto(c')
      && t.name == name && t.id in c'.tags && c'.tags[t.id] == t
      && (forall k :: k in c'.tags && k !in c.tags ==> c'.tags[k].name == name && name !in c.Names())
      && (name in c.Names() ==> c' == c)
  {
    if name in c.Names() {
      var k :| k in c.tags && c.tags[k].name == name;
      assert First(c.tags, (t: Tag) => t.name == name, c.nextId).Some?;
    }
  }

  /** A name the catalogue holds stays in it after more rows are added. */
  lemma NamesGrow(c: Catalogue, c': Catalogue)
    requires c.GrowsInto(c')
    ensures c.Names() <= c'.Names()
  {
    forall n | n in c.Names() ensures n in c'.Names() {
      var k :| k in c.tags && c.tags[k].name == n;
      assert c'.tags[k].name == n;
    }
  }

  /** The loop keeps the catalogue's invariants, and rows already stored stay. */
  lemma {:induction false} ResolveGrows(c: Catalogue, names: seq<string>)
    requires c.Valid()
    ensures Resolve(c, names).0.Valid() && c.GrowsInto(Resolve(c, names).0)
  {
    if names != [] {
      var prefix := names[..|names| - 1];
      ResolveGrows(c, prefix);
      StepSpec(Resolve(c, prefix).0, names[|names| - 1]);
    }
  }

  /** Every name resolves, in order, to a stored tag of that name. */
  lemma {:induction false} ResolveStores(c: Catalogue, names: seq<string>)
    requires c.Keyed()
    ensures var (c', r) := Resolve(c, names);
      && c'.Keyed()
      && (forall i :: 0 <= i < |names| ==> r[i].name == names[i] && r[i].id in c'.tags && c'.tags[r[i].id] == r[i])
  {
    if names != [] {
      var prefix := names[..|names| - 1];
      var last := names[|names| - 1];
      ResolveStores(c, prefix);
      var (c1, r1) := Resolve(c, prefix);
      StepStores(c1, last);
      var (c2, t) := Step(c1, last);
      var r := r1 + [t];
      forall i | 0 <= i < |names|
        ensures r[i].name == names[i] && r[i].id in c2.tags && c2.tags[r[i].id] == r[i]
      {
        if i < |prefix| {
          assert r[i] == r1[i] && names[i] == prefix[i];
        }
      }
    }
  }

  /** A row is inserted only for an input name the catalogue lacked. */
  lemma {:induction false} ResolveInsertsOnlyMissing(c: Catalogue, names: seq<string>)
    requires c.Valid()
    ensures var c' := Resolve(c, names).0;
      forall k :: k in c'.tags && k !in c.tags ==> c'.tags[k].name in names && c'.tags[k].name !in c.Names()
  {
    if names != [] {
      var prefix := names[..|names| - 1];
      var last := names[|names| - 1];
      assert names == prefix + [last];
      ResolveGrows(c, prefix);
      ResolveInsertsOnlyMissing(c, prefix);
      var (c1, r1) := Resolve(c, prefix);
      StepSpec(c1, last);
      NamesGrow(c, c1);
      var c2 := Step(c1, last).0;
      forall k | k in c2.tags && k !in c.tags
        ensures c2.tags[k].name in names && c2.tags[k].name !in c.Names()
      {
        if k in c1.tags {
          assert c1.tags[k].name in prefix;
        }
      }
    }
  }

  /** When every input name is already known, the catalogue is left as it was. */
  lemma {:induction false} ResolveKnownUnchanged(c: Catalogue, names: seq<string>)
    requires c.Valid()
    requires forall i :: 0 <= i < |names| ==> names[i] in c.Names()
    ensures Resolve(c, names).0 == c
  {
    if names != [] {
      var prefix := names[..|names| - 1];
      assert forall i :: 0 <= i < |prefix| ==> prefix[i] == names[i];
      ResolveKnownUnchanged(c, prefix);
      StepSpec(c, names[|names| - 1]);
    }
  }

  /** What `get_or_create_tags` promises: one tag per input name, in order and of that name,
      every one stored; existing rows are reused untouched; a row is inserted only for an
      input name the catalogue lacked; when every name was known nothing changes. */
  lemma ResolveSpec(c: Catalogue, names: seq<string>)
    requires c.Valid()
    ensures var (c', r) := Resolve(c, names);
      && c'.Valid()
      && c.GrowsInto(c')
      && (forall i :: 0 <= i < |names| ==> r[i].name == names[i] && r[i].id in c'.tags && c'.tags[r[i].id] == r[i])
      && (forall k :: k in c'.tags && k !in c.tags ==> c'.tags[k].name in names && c'.tags[k].name !in c.Names())
      && ((forall i :: 0 <= i < |names| ==> names[i] in c.Names()) ==> c' == c)
  {
    ResolveGrows(c, names);
    ResolveStores(c, names);
    ResolveInsertsOnlyMissing(c, names);
    if forall i :: 0 <= i < |names| ==> names[i] in c.Names() {
      ResolveKnownUnchanged(c, names);
    }
  }

  /** The same name, wherever it repeats in the input, resolves to the same tag. */
  lemma ResolveSameName(c: Catalogue, names: seq<string>, i: int, j: int)
    requires c.Valid() && 0 <= i < |names| && 0 <= j < |names| && names[i] == names[j]
    ensures Resolve(c, names).1[i] == Resolve(c, names).1[j]
  {
    ResolveSpec(c, names);
  }

  /** Running the loop again on its own result inserts nothing and returns the same tags. */
  lemma ResolveIdempotent(c: Catalogue, names: seq<string>)
    requires c.Valid()
    ensures var (c', r) := Resolve(c, names);
      Resolve(c', names) == (c', r)
  {
    var (c', r) := Resolve(c, names);
    ResolveGrows(c, names);
    ResolveStores(c, names);
    forall i | 0 <= i < |names| ensures names[i] in c'.Names() {
      assert c'.tags[r[i].id].name == names[i];
    }
    ResolveKnownUnchanged(c', names);
    ResolveStores(c', names);
    var r' := Resolve(c', names).1;
    assert |r'| == |r|;
    forall i | 0 <= i < |names| ensures r'[i] == r[i] {
      assert c'.tags[r'[i].id].name == c'.tags[r[i].id].name;
    }
    assert r' == r;
  }

  /** A catalogue grown from the store's own keeps the store's invariants. */
  lemma Reattach(s: Snapshot, c: Catalogue)
    requires s.Valid() && c.Valid() && Catalogue(s.tags, s.nextId).GrowsInto(c)
    ensures s.(tags := c.tags, nextId := c.nextId).Valid()
    ensures s.Consistent() ==> s.(tags := c.tags, nextId := c.nextId).Consistent()
  {
    var s' := s.(tags := c.tags, nextId := c.nextId);
    assert s'.users == s.users && s'.teams == s.teams && s'.feedback == s.feedback;
    assert s'.Valid();
    if s.Consistent() {
      assert forall k :: k in s.tags ==> k in c.tags;
      assert s'.Linked();
      assert s'.OneTeamPerManager() && s'.RolesRespected() && s'.FeedbackWithinTeam();
    }
  }

  /** The loop of `get_or_create_tags`, proved to compute `Resolve`; only the tag table and
      the id allocator change. */
  method GetOrCreateTags(db: Database, names: seq<string>) returns (r: seq<Tag>)
    requires db.Valid()
    modifies db
    ensures (Catalogue(db.tags, db.nextId), r) == Resolve(Catalogue(old(db.tags), old(db.nextId)), names)
    ensures db.State() == old(db.State()).(tags := db.tags, nextId := db.nextId)
    ensures db.Valid()
    ensures old(db.Consistent()) ==> db.Consistent()
    ensures db.FlagsOneWay()
  {
    ghost var c0 := Catalogue(db.tags, db.nextId);
    r := [];
    var i := 0;
    while i < |names|
      invariant 0 <= i <= |names|
      invariant (Catalogue(db.tags, db.nextId), r) == Resolve(c0, names[..i])
      invariant db.State() == old(db.State()).(tags := db.tags, nextId := db.nextId)
    {
      assert names[..i + 1][..i] == names[..i];
      ghost var (c1, t1) := Step(Catalogue(db.tags, db.nextId), names[i]);
      assert Resolve(c0, names[..i + 1]) == (c1, r + [t1]);
      var name := names[i];
      var found := First(db.tags, (t: Tag) => t.name == name, db.nextId);
      var tag;
      if found.Some? {
        tag := db.tags[found.value];
      } else {
        tag := Tag(db.nextId, name);
        db.tags := db.tags[tag.id := tag];
        db.nextId := db.nextId + 1;
      }
      assert Catalogue(db.tags, db.nextId) == c1 && tag == t1;
      r := r + [tag];
      i := i + 1;
    }
    assert names[..i] == names;
    ResolveSpec(c0, names);
    Reattach(old(db.State()), Catalogue(db.tags, db.nextId));
  }
}

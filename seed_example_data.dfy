/** Development seeding of three example clients: each seed row is inserted
    only if no client of that name exists, and the names inserted are returned
    in seed order. */
module SeedExampleData {
  import opened Db

  /** The seed rows, in insertion order. */
  const SeedClients: seq<Client> := [
    Client("vetpartners", "vetpartners@site.com", "07999999", "https://www.vetpartners.co.uk/", true),
    Client("dcc", "dcc@site.com", "07899999", "https://dccpropane.com/", true),
    Client("curaleaf", "curaleaf@site.com", "07891999", "https://curaleafpharmacy.co.uk/", false)
  ]

  /** The names present in a Client table. */
  function Names(rows: seq<Client>): set<string>
  {
    set c | c in rows :: c.name
  }

  lemma NamesConcat(a: seq<Client>, b: seq<Client>)
    ensures Names(a + b) == Names(a) + Names(b)
  {
  }

  /** The names of a sequence of rows, in order. */
  function NamesOf(rows: seq<Client>): (names: seq<string>)
    ensures |names| == |rows|
    ensures forall i :: 0 <= i < |rows| ==> names[i] == rows[i].name
  {
    if rows == [] then [] else NamesOf(rows[..|rows| - 1]) + [rows[|rows| - 1].name]
  }

  /** The seed rows, in order, whose name is not among `present`. */
  function ToInsert(seeds: seq<Client>, present: set<string>): (r: seq<Client>)
    ensures |r| <= |seeds|
  {
    if seeds == [] then []
    else
      var last := seeds[|seeds| - 1];
      ToInsert(seeds[..|seeds| - 1], present) + (if last.name in present then [] else [last])
  }

  /** A row is inserted iff it is a seed row whose name is absent. */
  lemma {:induction false} ToInsertMembers(seeds: seq<Client>, present: set<string>, c: Client)
    ensures c in ToInsert(seeds, present) <==> c in seeds && c.name !in present
  {
    if seeds != [] {
      var init := seeds[..|seeds| - 1];
      ToInsertMembers(init, present, c);
      assert seeds == init + [seeds[|seeds| - 1]];
    }
  }

  /** Nothing is inserted when every seed name is already present. */
  lemma {:induction false} ToInsertCovered(seeds: seq<Client>, present: set<string>)
    requires forall i :: 0 <= i < |seeds| ==> seeds[i].name in present
    ensures ToInsert(seeds, present) == []
  {
    if seeds != [] {
      ToInsertCovered(seeds[..|seeds| - 1], present);
    }
  }

  /** The Client table after seeding a table `rows`. */
  function AfterSeed(rows: seq<Client>): seq<Client>
  {
    rows + ToInsert(SeedClients, Names(rows))
  }

  /** On an empty table all three clients are inserted, in seed order. */
  lemma SeedEmptyTable()
    ensures NamesOf(ToInsert(SeedClients, Names([]))) == ["vetpartners", "dcc", "curaleaf"]
  {
  }

  /** After seeding, a client of every seed name exists. */
  lemma SeedCoversEveryName(rows: seq<Client>)
    ensures forall i :: 0 <= i < |SeedClients| ==> SeedClients[i].name in Names(AfterSeed(rows))
  {
    forall i | 0 <= i < |SeedClients|
      ensures SeedClients[i].name in Names(AfterSeed(rows))
    {
      var c := SeedClients[i];
      if c.name !in Names(rows) {
        ToInsertMembers(SeedClients, Names(rows), c);
        assert c in AfterSeed(rows);
      } else {
        var d :| d in rows && d.name == c.name;
        assert d in AfterSeed(rows);
      }
    }
  }

  /** Seeding is idempotent: a second run inserts nothing (and so returns an
      empty list). */
  lemma SecondSeedInsertsNothing(rows: seq<Client>)
    ensures ToInsert(SeedClients, Names(AfterSeed(rows))) == []
    ensures AfterSeed(AfterSeed(rows)) == AfterSeed(rows)
  {
    SeedCoversEveryName(rows);
    ToInsertCovered(SeedClients, Names(AfterSeed(rows)));
  }

  /** Existing rows stay where they were, unchanged, and the table grows by
      exactly the number of names returned. */
  lemma SeedKeepsRowsAndCounts(rows: seq<Client>)
    ensures AfterSeed(rows)[..|rows|] == rows
    ensures |AfterSeed(rows)| == |rows| + |NamesOf(ToInsert(SeedClients, Names(rows)))|
    ensures forall c :: c in AfterSeed(rows) && c !in rows ==> c in SeedClients && c.name !in Names(rows)
  {
    forall c | c in AfterSeed(rows) && c !in rows
      ensures c in SeedClients && c.name !in Names(rows)
    {
      ToInsertMembers(SeedClients, Names(rows), c);
    }
  }

  /** The seed names are distinct, so each returned name is a distinct new row. */
  lemma SeedNamesDistinct()
    ensures forall i, j :: 0 <= i < j < |SeedClients| ==> SeedClients[i].name != SeedClients[j].name
  {
  }

  /** One check-then-insert step of the loop: the k-th seed's name is in the
      table built so far iff it was there at the start (the seed names are
      distinct), and the step extends the inserted rows and the returned names
      by that seed when it was absent. */
  lemma ClientStep(seeds: seq<Client>, k: nat, start: seq<Client>)
    requires k < |seeds|
    requires forall i, j :: 0 <= i < j < |seeds| ==> seeds[i].name != seeds[j].name
    ensures seeds[k].name in Names(start + ToInsert(seeds[..k], Names(start))) <==> seeds[k].name in Names(start)
    ensures ToInsert(seeds[..k + 1], Names(start))
      == ToInsert(seeds[..k], Names(start)) + (if seeds[k].name in Names(start) then [] else [seeds[k]])
    ensures start + ToInsert(seeds[..k], Names(start)) + [seeds[k]] == start + (ToInsert(seeds[..k], Names(start)) + [seeds[k]])
    ensures NamesOf(ToInsert(seeds[..k], Names(start)) + [seeds[k]]) == NamesOf(ToInsert(seeds[..k], Names(start))) + [seeds[k].name]
  {
    var done := ToInsert(seeds[..k], Names(start));
    var c := seeds[k];
    assert seeds[..k + 1][..k] == seeds[..k];
    NamesConcat(start, done);
    forall d | d in done
      ensures d.name != c.name
    {
      ToInsertMembers(seeds[..k], Names(start), d);
    }
    assert (done + [c])[..|done|] == done;
  }

  /** The loop of `seed_example_clients` over a list of seed rows with
      distinct names: each row whose name is absent from the table is
      appended, and its name added to the returned list. */
  method InsertAbsentClients(db: Store, seeds: seq<Client>) returns (created: seq<string>)
    requires db.Valid()
    requires forall i, j :: 0 <= i < j < |seeds| ==> seeds[i].name != seeds[j].name
    modifies db`clients
    ensures db.Valid()
    ensures db.clients == old(db.clients) + ToInsert(seeds, Names(old(db.clients)))
    ensures created == NamesOf(ToInsert(seeds, Names(old(db.clients))))
  {
    created := [];
    ghost var start := db.clients;
    var k := 0;
    while k < |seeds|
      invariant 0 <= k <= |seeds|
      invariant db.clients == start + ToInsert(seeds[..k], Names(start))
      invariant created == NamesOf(ToInsert(seeds[..k], Names(start)))
    {
      var client := seeds[k];
      ClientStep(seeds, k, start);
      if client.name !in Names(db.clients) {
        db.clients := db.clients + [client];
        created := created + [client.name];
      }
      k := k + 1;
    }
    assert seeds[..k] == seeds;
  }

  /** `seed_example_clients`: each seed row whose name is absent from the table
      is appended; existing rows are left untouched; the names appended are
      returned in seed order. */
  method SeedExampleClients(db: Store) returns (created: seq<string>)
    requires db.Valid()
    modifies db`clients
    ensures db.Valid()
    ensures db.clients == AfterSeed(old(db.clients))
    ensures created == NamesOf(ToInsert(SeedClients, Names(old(db.clients))))
  {
    SeedNamesDistinct();
    created := InsertAbsentClients(db, SeedClients);
  }
}

/**
 Concrete histories of the listing component: a three-row load followed by tab
 clicks, and the empty and failed loads that end in different screens.
 */
module Scenarios {
  import opened Catalog
  import opened Listings
  import Ascii

  const Villa1: Property := Property(1, "Villa", map[])
  const Office2: Property := Property(2, "Office", map[])
  const Villa3: Property := Property(3, "villa", map[])

  const ThreeRows: QueryOutcome := Answered(NonNull([Villa1, Office2, Villa3]), Null)

  /** The load shows all three rows; "Villa" keeps both villas whatever their case; "Apartment" keeps none. */
  lemma ThreeRowRun()
    ensures Run(ThreeRows, []).filtered == [Villa1, Office2, Villa3]
    ensures Run(ThreeRows, ["Villa"]).filtered == [Villa1, Villa3]
    ensures Run(ThreeRows, ["Villa", "Apartment"]).filtered == []
    ensures Render(Run(ThreeRows, ["Villa", "Apartment"])).showEmptyNotice
  {
    var rows := [Villa1, Office2, Villa3];
    assert Ascii.Lower("Villa") == "villa";
    assert Ascii.Lower("villa") == "villa";
    assert Ascii.Lower("Office")[0] == 'o';
    assert Matches(Villa1, "Villa") && Matches(Villa3, "Villa") && !Matches(Office2, "Villa");
    assert rows[..2][..1] == [Villa1] && rows[..2] == [Villa1, Office2] && rows[..1][..0] == [];
    assert KeepMatching(rows[..1], "Villa") == [Villa1];
    assert KeepMatching(rows[..2], "Villa") == [Villa1];
    assert KeepMatching(rows, "Villa") == [Villa1, Villa3];
    assert Ascii.Lower("Apartment")[0] == 'a';
    assert !Matches(Villa1, "Apartment") && !Matches(Office2, "Apartment") && !Matches(Villa3, "Apartment");
    assert KeepMatching(rows[..1], "Apartment") == [];
    assert KeepMatching(rows[..2], "Apartment") == [];
    assert KeepMatching(rows, "Apartment") == [];
    assert ["Villa", "Apartment"][..1] == ["Villa"];
  }

  /** A load that returns no rows is not a failure: the grid shows with the empty notice and no error. */
  lemma EmptyLoadIsNotFailure()
    ensures Render(Run(Answered(NonNull([]), Null), [])) == Grid(TabBar(AllTab), [], true)
    ensures Render(Run(Answered(Null, Null), [])) == Grid(TabBar(AllTab), [], true)
    ensures Render(Run(Answered(NonNull([Villa1]), NonNull(QueryError("missing table"))), [])) == ErrorView(BackendErrorMessage)
  {
  }
}

/**
 * The timezone page: the list of selected zone ids, the selector that adds
 * to it, the remove control, and the catalogue entries still available.
 */
module Timezone {
  import opened Options
  import opened Seqs

  datatype Zone = Zone(id: string, name: string, zone: string)

  /**
   * The page's `timezones` table. The first entry's zone is the browser's
   * own, which the platform reports; it is an argument here.
   */
  function Timezones(localZone: string): (t: seq<Zone>)
    ensures |t| == 17
  {
    [ Zone("local", "Local", localZone),
      Zone("utc", "UTC", "UTC"),
      Zone("paris", "Paris", "Europe/Paris"),
      Zone("london", "Londres", "Europe/London"),
      Zone("new_york", "New York", "America/New_York"),
      Zone("los_angeles", "Los Angeles", "America/Los_Angeles"),
      Zone("tokyo", "Tokyo", "Asia/Tokyo"),
      Zone("sydney", "Sydney", "Australia/Sydney"),
      Zone("dubai", "Dubai", "Asia/Dubai"),
      Zone("singapore", "Singapour", "Asia/Singapore"),
      Zone("hong_kong", "Hong Kong", "Asia/Hong_Kong"),
      Zone("mumbai", "Mumbai", "Asia/Kolkata"),
      Zone("moscow", "Moscou", "Europe/Moscow"),
      Zone("berlin", "Berlin", "Europe/Berlin"),
      Zone("zurich", "Zurich", "Europe/Zurich"),
      Zone("toronto", "Toronto", "America/Toronto"),
      Zone("sao_paulo", "São Paulo", "America/Sao_Paulo") ]
  }

  predicate NoDuplicates(s: seq<string>)
  {
    forall i, j :: 0 <= i < j < |s| ==> s[i] != s[j]
  }

  /** `selectedZones.filter(z => z !== id)`. */
  function Without(s: seq<string>, id: string): (r: seq<string>)
    ensures |r| <= |s|
    ensures id !in r
    ensures forall z :: z in r <==> z in s && z != id
  {
    if s == [] then [] else
      var init := Without(s[..|s| - 1], id);
      if s[|s| - 1] != id then init + [s[|s| - 1]] else init
  }

  /** Removing keeps the list free of duplicates, and removes exactly one entry when the id is there. */
  lemma {:induction false} WithoutNoDuplicates(s: seq<string>, id: string)
    requires NoDuplicates(s)
    ensures NoDuplicates(Without(s, id))
    ensures |Without(s, id)| == if id in s then |s| - 1 else |s|
  {
    if s != [] {
      var init := s[..|s| - 1];
      assert NoDuplicates(init);
      WithoutNoDuplicates(init, id);
      assert s == init + [s[|s| - 1]];
      assert s[|s| - 1] !in init;
    }
  }

  /** The survivors keep their order: removal distributes over concatenation. */
  lemma {:induction false} WithoutAppend(a: seq<string>, b: seq<string>, id: string)
    ensures Without(a + b, id) == Without(a, id) + Without(b, id)
    decreases |b|
  {
    if b == [] {
      assert a + b == a;
    } else {
      assert (a + b)[..|a + b| - 1] == a + b[..|b| - 1];
      WithoutAppend(a, b[..|b| - 1], id);
    }
  }

  /** `timezones.filter(tz => !selectedZones.includes(tz.id))`. */
  function Available(catalogue: seq<Zone>, selected: seq<string>): (r: seq<Zone>)
    ensures |r| <= |catalogue|
    ensures forall z :: z in r <==> z in catalogue && z.id !in selected
  {
    if catalogue == [] then [] else
      var init := Available(catalogue[..|catalogue| - 1], selected);
      var z := catalogue[|catalogue| - 1];
      if z.id !in selected then init + [z] else init
  }

  /** Available entries come in catalogue order: filtering distributes over concatenation. */
  lemma {:induction false} AvailableAppend(a: seq<Zone>, b: seq<Zone>, selected: seq<string>)
    ensures Available(a + b, selected) == Available(a, selected) + Available(b, selected)
    decreases |b|
  {
    if b == [] {
      assert a + b == a;
    } else {
      assert (a + b)[..|a + b| - 1] == a + b[..|b| - 1];
      AvailableAppend(a, b[..|b| - 1], selected);
    }
  }

  /** Every catalogue entry is either available or selected, never both. */
  lemma AvailableComplement(catalogue: seq<Zone>, selected: seq<string>, z: Zone)
    requires z in catalogue
    ensures z in Available(catalogue, selected) <==> z.id !in selected
  {
  }

  /** `timezones.find(t => t.id === zoneId)`. */
  function Find(catalogue: seq<Zone>, zoneId: string): Option<Zone>
  {
    FindBy(catalogue, (z: Zone) => z.id, zoneId)
  }

  /** The zones drawn, in selection order; ids missing from the catalogue are skipped. */
  function Rendered(catalogue: seq<Zone>, selected: seq<string>): (r: seq<Zone>)
    ensures |r| <= |selected|
    ensures forall z :: z in r ==> z in catalogue && z.id in selected
    ensures forall i :: 0 <= i < |selected| && Find(catalogue, selected[i]).Some? ==>
      Find(catalogue, selected[i]).value in r
  {
    if selected == [] then [] else
      var init := Rendered(catalogue, selected[..|selected| - 1]);
      var found := Find(catalogue, selected[|selected| - 1]);
      if found.Some? then init + [found.value] else init
  }

  lemma RenderedSingle(catalogue: seq<Zone>, id: string)
    ensures Rendered(catalogue, [id]) == if Find(catalogue, id).Some? then [Find(catalogue, id).value] else []
  {
    assert [id][..0] == [];
  }

  lemma {:induction false} RenderedAppend(catalogue: seq<Zone>, a: seq<string>, b: seq<string>)
    ensures Rendered(catalogue, a + b) == Rendered(catalogue, a) + Rendered(catalogue, b)
    decreases |b|
  {
    if b == [] {
      assert a + b == a;
    } else {
      var b0 := b[..|b| - 1];
      var found := Find(catalogue, b[|b| - 1]);
      var last := if found.Some? then [found.value] else [];
      assert (a + b)[..|a + b| - 1] == a + b0;
      assert (a + b)[|a + b| - 1] == b[|b| - 1];
      assert Rendered(catalogue, a + b) == Rendered(catalogue, a + b0) + last;
      assert Rendered(catalogue, b) == Rendered(catalogue, b0) + last;
      RenderedAppend(catalogue, a, b0);
    }
  }

  /**
   * The zones are drawn in selection order: the drawing of two selections
   * one after the other is the two drawings one after the other, and one
   * id draws its zone or, when the catalogue lacks it, nothing.
   */
  lemma RenderedOrder(catalogue: seq<Zone>, a: seq<string>, b: seq<string>)
    ensures Rendered(catalogue, a + b) == Rendered(catalogue, a) + Rendered(catalogue, b)
    ensures forall id :: Rendered(catalogue, [id]) == if Find(catalogue, id).Some? then [Find(catalogue, id).value] else []
  {
    RenderedAppend(catalogue, a, b);
    forall id ensures Rendered(catalogue, [id]) == if Find(catalogue, id).Some? then [Find(catalogue, id).value] else [] {
      RenderedSingle(catalogue, id);
    }
  }

  /** The remove control is drawn only when more than one zone is selected. */
  predicate RemoveOffered(selected: seq<string>)
  {
    |selected| > 1
  }

  /** Removing through the control, from a duplicate-free list, never empties it. */
  lemma RemoveThroughControlKeepsOne(selected: seq<string>, id: string)
    requires NoDuplicates(selected) && RemoveOffered(selected) && id in selected
    ensures |Without(selected, id)| == |selected| - 1 >= 1
  {
    WithoutNoDuplicates(selected, id);
  }

  class TimezonePage {
    const catalogue: seq<Zone>
    var selectedZones: seq<string>
    var showSelector: bool

    /** No id is selected twice. */
    ghost predicate Valid()
      reads this
    {
      NoDuplicates(selectedZones)
    }

    /** The initial selection: local time, UTC, New York and Tokyo; selector closed. */
    constructor (localZone: string)
      ensures Valid()
      ensures catalogue == Timezones(localZone)
      ensures selectedZones == ["local", "utc", "new_york", "tokyo"] && !showSelector
    {
      catalogue := Timezones(localZone);
      selectedZones := ["local", "utc", "new_york", "tokyo"];
      showSelector := false;
    }

    /** `availableZones`. */
    function AvailableZones(): seq<Zone>
      reads this
    {
      Available(catalogue, selectedZones)
    }

    /** `addZone`: append the id if it is not already selected, and close the selector either way. */
    method AddZone(id: string)
      requires Valid()
      modifies this
      ensures Valid()
      ensures id in old(selectedZones) ==> selectedZones == old(selectedZones)
      ensures id !in old(selectedZones) ==> selectedZones == old(selectedZones) + [id]
      ensures !showSelector
    {
      if id !in selectedZones {
        selectedZones := selectedZones + [id];
      }
      showSelector := false;
    }

    /** `removeZone`: drop the id, keep the others in order. */
    method RemoveZone(id: string)
      requires Valid()
      modifies this
      ensures Valid()
      ensures selectedZones == Without(old(selectedZones), id)
      ensures showSelector == old(showSelector)
    {
      WithoutNoDuplicates(selectedZones, id);
      selectedZones := Without(selectedZones, id);
    }
  }
}

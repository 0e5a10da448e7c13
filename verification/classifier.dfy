/** RUV classification: three independent substring tests over the record list, and the
    labels the "see all" listing prints. */
module Classifier {
  import opened PyStr

  /** Substring that marks the replication-generation record. */
  const GenerationMarker := "replicageneration"

  /** Substring that marks a record naming a live, addressable replica. */
  const LdapUrl := "ldap://"

  datatype Category = Generation | Normal | Ghost

  /** The membership test of each category; ghost is "neither marker", so it is never
      derived by subtracting the other two lists. */
  predicate InCategory(c: Category, r: string) {
    match c
    case Generation => Contains(r, GenerationMarker)
    case Normal => Contains(r, LdapUrl)
    case Ghost => !Contains(r, GenerationMarker) && !Contains(r, LdapUrl)
  }

  /** The list comprehension `[r for r in rs if test(r)]` for the category's test. */
  function Select(c: Category, rs: seq<string>): (sel: seq<string>)
    ensures |sel| <= |rs|
    ensures forall k :: 0 <= k < |sel| ==> InCategory(c, sel[k])
    decreases |rs|
  {
    if |rs| == 0 then []
    else Select(c, rs[..|rs| - 1]) + (if InCategory(c, rs[|rs| - 1]) then [rs[|rs| - 1]] else [])
  }

  /** Positions (ascending) of the records of `rs` that pass the category's test. */
  function Positions(c: Category, rs: seq<string>): (ps: seq<nat>)
    ensures |ps| == |Select(c, rs)|
    ensures forall k :: 0 <= k < |ps| ==> ps[k] < |rs|
    decreases |rs|
  {
    if |rs| == 0 then []
    else Positions(c, rs[..|rs| - 1]) + (if InCategory(c, rs[|rs| - 1]) then [|rs| - 1] else [])
  }

  /** Each selected list is the subsequence of `rs` taken at strictly increasing positions:
      order is kept. */
  lemma {:induction false} SelectIsSubsequence(c: Category, rs: seq<string>)
    ensures forall k :: 0 <= k < |Positions(c, rs)| ==> Select(c, rs)[k] == rs[Positions(c, rs)[k]]
    ensures forall k, l :: 0 <= k < l < |Positions(c, rs)| ==> Positions(c, rs)[k] < Positions(c, rs)[l]
    decreases |rs|
  {
    if |rs| > 0 {
      var n := |rs| - 1;
      var front := rs[..n];
      SelectIsSubsequence(c, front);
      var p, q := Positions(c, front), Select(c, front);
      if InCategory(c, rs[n]) {
        assert Positions(c, rs) == p + [n];
        assert Select(c, rs) == q + [rs[n]];
      } else {
        assert Positions(c, rs) == p;
        assert Select(c, rs) == q;
      }
    }
  }

  /** The positions taken are exactly those whose record passes the test: nothing that
      passes is dropped. */
  lemma {:induction false} PositionsExact(c: Category, rs: seq<string>)
    ensures forall i :: 0 <= i < |rs| ==> (i in Positions(c, rs) <==> InCategory(c, rs[i]))
    decreases |rs|
  {
    if |rs| > 0 {
      var n := |rs| - 1;
      var front := rs[..n];
      PositionsExact(c, front);
      var p := Positions(c, front);
      assert forall i :: 0 <= i < n ==> front[i] == rs[i];
      if InCategory(c, rs[n]) {
        assert Positions(c, rs) == p + [n];
      } else {
        assert Positions(c, rs) == p;
      }
    }
  }

  /** No deduplication: a record occurs in a selected list exactly as often as in `rs` when
      it passes the test, and not at all otherwise. */
  lemma {:induction false} SelectKeepsMultiplicity(c: Category, rs: seq<string>, x: string)
    ensures multiset(Select(c, rs))[x] == if InCategory(c, x) then multiset(rs)[x] else 0
    decreases |rs|
  {
    if |rs| > 0 {
      var n := |rs| - 1;
      SelectKeepsMultiplicity(c, rs[..n], x);
      assert rs == rs[..n] + [rs[n]];
    }
  }

  /** Every record occurs in a selected list as often as in `rs` when it passes the test, and
      not at all otherwise. */
  lemma SelectCounts(c: Category, rs: seq<string>)
    ensures forall x :: multiset(Select(c, rs))[x] == if InCategory(c, x) then multiset(rs)[x] else 0
  {
    forall x {
      SelectKeepsMultiplicity(c, rs, x);
    }
  }

  /** A record is in a selected list exactly when it is in `rs` and passes the test. */
  lemma SelectMembership(c: Category, rs: seq<string>)
    ensures forall x :: x in Select(c, rs) <==> x in rs && InCategory(c, x)
  {
    forall x {
      SelectKeepsMultiplicity(c, rs, x);
    }
  }

  /** The result of one classification pass over the records. */
  datatype Classification = Classification(
    all: seq<string>,
    generation: seq<string>,
    normal: seq<string>,
    ghosts: seq<string>)

  /** The three lists the menu counts. A record of the list is a ghost exactly when it is in
      neither of the other two lists, and the three counts exceed the total by the records
      carrying both markers. */
  function Classify(all: seq<string>): (cl: Classification)
    ensures cl.all == all
    ensures forall r :: multiset(cl.generation)[r] == if InCategory(Generation, r) then multiset(all)[r] else 0
    ensures forall r :: multiset(cl.normal)[r] == if InCategory(Normal, r) then multiset(all)[r] else 0
    ensures forall r :: multiset(cl.ghosts)[r] == if InCategory(Ghost, r) then multiset(all)[r] else 0
    ensures forall r :: r in cl.ghosts <==> r in all && r !in cl.generation && r !in cl.normal
    ensures |cl.ghosts| + |cl.generation| + |cl.normal| == |all| + Overlap(all)
  {
    SelectMembership(Generation, all);
    SelectMembership(Normal, all);
    SelectMembership(Ghost, all);
    SelectCounts(Generation, all);
    SelectCounts(Normal, all);
    SelectCounts(Ghost, all);
    CountsAddUp(all);
    Classification(all, Select(Generation, all), Select(Normal, all), Select(Ghost, all))
  }

  /** A record carrying both markers is listed as generation and as normal, never as ghost. */
  lemma BothMarkersNeverGhost(r: string)
    requires Contains(r, GenerationMarker) && Contains(r, LdapUrl)
    ensures InCategory(Generation, r) && InCategory(Normal, r) && !InCategory(Ghost, r)
  {
  }

  /** Every record lands in at least one list; ghost excludes the other two. */
  lemma CategoriesCover(r: string)
    ensures InCategory(Ghost, r) <==> !InCategory(Generation, r) && !InCategory(Normal, r)
  {
  }

  /** Number of records carrying both markers. */
  function Overlap(rs: seq<string>): nat
    decreases |rs|
  {
    if |rs| == 0 then 0
    else Overlap(rs[..|rs| - 1]) + (if InCategory(Generation, rs[|rs| - 1]) && InCategory(Normal, rs[|rs| - 1]) then 1 else 0)
  }

  /** The three counts the menu prints exceed the total by the records counted twice. */
  lemma {:induction false} CountsAddUp(rs: seq<string>)
    ensures |Select(Ghost, rs)| + |Select(Generation, rs)| + |Select(Normal, rs)| == |rs| + Overlap(rs)
    decreases |rs|
  {
    if |rs| > 0 {
      CountsAddUp(rs[..|rs| - 1]);
    }
  }

  /** A record without a `g` cannot hold the generation marker. */
  lemma NoGenerationWithoutG(r: string)
    requires 'g' !in r
    ensures !InCategory(Generation, r)
  {
    assert GenerationMarker[7] == 'g';
    NotContainsMissingChar(r, GenerationMarker, 7);
  }

  /** A record without a `:` cannot hold a replica URL. */
  lemma NoUrlWithoutColon(r: string)
    requires ':' !in r
    ensures !InCategory(Normal, r)
  {
    assert LdapUrl[4] == ':';
    NotContainsMissingChar(r, LdapUrl, 4);
  }

  /** A record with a replica URL and no generation marker is normal only. */
  lemma LiveRecordIsNormal(live: string)
    requires live == "{replica 1} " + LdapUrl + "host1:389"
    ensures InCategory(Normal, live) && !InCategory(Generation, live) && !InCategory(Ghost, live)
  {
    ContainsMiddle("{replica 1} ", LdapUrl, "host1:389");
    assert 'g' !in live;
    NoGenerationWithoutG(live);
  }

  /** A record with the generation marker and no URL is a generation record only. */
  lemma MarkerRecordIsGeneration(marker: string)
    requires marker == "{replica 2} 5fa1 " + GenerationMarker
    ensures InCategory(Generation, marker) && !InCategory(Normal, marker) && !InCategory(Ghost, marker)
  {
    ContainsMiddle("{replica 2} 5fa1 ", GenerationMarker, "");
    assert "{replica 2} 5fa1 " + GenerationMarker + "" == marker;
    assert ':' !in "{replica 2} 5fa1 " && ':' !in GenerationMarker;
    NoUrlWithoutColon(marker);
  }

  /** A record with neither marker is a ghost only. */
  lemma OrphanRecordIsGhost(orphan: string)
    requires orphan == "{replica 3} " + "ffffffff-ffffffff"
    ensures InCategory(Ghost, orphan) && !InCategory(Generation, orphan) && !InCategory(Normal, orphan)
  {
    var head, tail := "{replica 3} ", "ffffffff-ffffffff";
    assert 'g' !in head && ':' !in head;
    assert 'g' !in tail && ':' !in tail;
    assert orphan == head + tail;
    NoGenerationWithoutG(orphan);
    NoUrlWithoutColon(orphan);
  }

  /** Selecting from a list extended by one record extends the selection by that record
      exactly when it passes the test. */
  lemma SelectSnoc(c: Category, rs: seq<string>, x: string)
    ensures Select(c, rs + [x]) == Select(c, rs) + (if InCategory(c, x) then [x] else [])
  {
    assert (rs + [x])[..|rs|] == rs;
  }

  /** One record of each kind, in any order of kinds, lands in its own list only. */
  lemma ClassifyOneOfEach(live: string, marker: string, orphan: string)
    requires InCategory(Normal, live) && !InCategory(Generation, live)
    requires InCategory(Generation, marker) && !InCategory(Normal, marker)
    requires InCategory(Ghost, orphan)
    ensures var cl := Classify([live, marker, orphan]);
            cl.normal == [live] && cl.generation == [marker] && cl.ghosts == [orphan]
  {
    SelectOneOfEach(live, marker, orphan);
  }

  lemma SelectOneOfEach(live: string, marker: string, orphan: string)
    requires InCategory(Normal, live) && !InCategory(Generation, live)
    requires InCategory(Generation, marker) && !InCategory(Normal, marker)
    requires InCategory(Ghost, orphan)
    ensures var rs := [live, marker, orphan];
            Select(Normal, rs) == [live] && Select(Generation, rs) == [marker] && Select(Ghost, rs) == [orphan]
  {
    var rs := [live, marker, orphan];
    assert rs == [live, marker] + [orphan] && [live, marker] == [live] + [marker] && [live] == [] + [live];
    SelectSnoc(Normal, [], live);
    SelectSnoc(Normal, [live], marker);
    SelectSnoc(Normal, [live, marker], orphan);
    SelectSnoc(Generation, [], live);
    SelectSnoc(Generation, [live], marker);
    SelectSnoc(Generation, [live, marker], orphan);
    SelectSnoc(Ghost, [], live);
    SelectSnoc(Ghost, [live], marker);
    SelectSnoc(Ghost, [live, marker], orphan);
  }

  /** A live replica, a generation marker and an orphaned replica fall into one list each. */
  lemma ClassifyThreeKinds()
    ensures var live := "{replica 1} " + LdapUrl + "host1:389";
            var marker := "{replica 2} 5fa1 " + GenerationMarker;
            var orphan := "{replica 3} " + "ffffffff-ffffffff";
            var cl := Classify([live, marker, orphan]);
            cl.normal == [live] && cl.generation == [marker] && cl.ghosts == [orphan]
  {
    var live := "{replica 1} " + LdapUrl + "host1:389";
    var marker := "{replica 2} 5fa1 " + GenerationMarker;
    var orphan := "{replica 3} " + "ffffffff-ffffffff";
    LiveRecordIsNormal(live);
    MarkerRecordIsGeneration(marker);
    OrphanRecordIsGhost(orphan);
    ClassifyOneOfEach(live, marker, orphan);
  }

  /** Labels of the "see all" listing. */
  datatype Label = NormalLabel | GhostLabel

  /** The text printed after a record in the listing. */
  function LabelText(l: Label): string {
    match l
    case NormalLabel => " Normal"
    case GhostLabel => " *Ghost"
  }

  /** The label test as the listing writes it: the operand `"replicageneration"` is a
      non-empty literal, so the conjunction reduces to the URL test. */
  function SeeAllLabel(r: string): Label {
    if Truthy(GenerationMarker) && Contains(r, LdapUrl) then NormalLabel else GhostLabel
  }

  datatype ListingLine = ListingLine(shown: Label, ruv: string)

  /** The "see all" listing: one labelled line per record, in order. */
  function SeeAll(rs: seq<string>): (lines: seq<ListingLine>)
    ensures |lines| == |rs|
    ensures forall i :: 0 <= i < |rs| ==> lines[i].ruv == rs[i]
    ensures forall i :: 0 <= i < |rs| ==> (lines[i].shown == NormalLabel <==> InCategory(Normal, rs[i]))
  {
    seq(|rs|, i requires 0 <= i < |rs| => ListingLine(SeeAllLabel(rs[i]), rs[i]))
  }

  /** The text the listing prints after each record: " Normal" for a record holding an LDAP
      URL, " *Ghost" for every other one. */
  lemma SeeAllText(rs: seq<string>)
    ensures var lines := SeeAll(rs);
            forall i :: 0 <= i < |rs| ==>
              LabelText(lines[i].shown) == (if Contains(rs[i], LdapUrl) then " Normal" else " *Ghost")
  {
  }

  /** A generation-only record is listed as " *Ghost" although the classifier does not count
      it as a ghost. */
  lemma SeeAllMislabelsGenerationRecord()
    ensures var r := "{" + GenerationMarker + "} 51dc3bac000000010000";
            !InCategory(Ghost, r) && SeeAll([r])[0].shown == GhostLabel
  {
    var r := "{" + GenerationMarker + "} 51dc3bac000000010000";
    ContainsMiddle("{", GenerationMarker, "} 51dc3bac000000010000");
    assert ':' !in r;
    NoUrlWithoutColon(r);
  }

  /** The listing with the label the classifier implies: " *Ghost" exactly for records the
      ghost list holds. */
  function SeeAllCorrected(rs: seq<string>): (lines: seq<ListingLine>)
    ensures |lines| == |rs|
    ensures forall i :: 0 <= i < |rs| ==> lines[i].ruv == rs[i]
    ensures forall i :: 0 <= i < |rs| ==> (lines[i].shown == GhostLabel <==> rs[i] in Select(Ghost, rs))
  {
    SelectMembership(Ghost, rs);
    seq(|rs|, i requires 0 <= i < |rs| =>
      ListingLine(if InCategory(Ghost, rs[i]) then GhostLabel else NormalLabel, rs[i]))
  }
}

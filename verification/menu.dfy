/** One round of the main menu: read the RUV records, show the counts, offer exit, the full
    listing, or (when there are ghosts) the ghost pass, and dispatch on the line typed. */
module Menu {
  import opened Wrappers
  import opened PyStr
  import opened Ruvs
  import opened Classifier
  import Resolver
  import Directive
  import Dn

  /** The menu line up to the optional third entry. */
  const PromptHead := " 0 - Exit \t 1 - See all "

  /** The third entry, shown only when there are ghosts. */
  const FixEntry := "\t 2 - Fix Ghost RUVs: "

  /** The end of the menu line when there are no ghosts. */
  const PlainEnd := ": "

  /** The menu line for the given number of ghosts. */
  function MenuPrompt(ghostCount: nat): (p: string)
    ensures IsPrefix(PromptHead, p)
    ensures ghostCount > 0 ==> IsSuffix(FixEntry, p)
    ensures ghostCount == 0 ==> IsSuffix(PlainEnd, p)
    ensures |p| == |PromptHead| + (if ghostCount > 0 then |FixEntry| else |PlainEnd|)
  {
    var tail := if ghostCount > 0 then FixEntry else PlainEnd;
    assert (PromptHead + tail)[..|PromptHead|] == PromptHead;
    assert (PromptHead + tail)[|PromptHead|..] == tail;
    PromptHead + tail
  }

  /** The menu line names the ghost pass exactly when there is a ghost. */
  lemma PromptOffersFixIffGhosts(ghostCount: nat)
    ensures Contains(MenuPrompt(ghostCount), "2 - Fix") <==> ghostCount > 0
  {
    FixEntryParts(FixEntry);
    if ghostCount > 0 {
      ContainsMiddle(PromptHead + "\t ", "2 - Fix", " Ghost RUVs: ");
      assert PromptHead + "\t " + "2 - Fix" + " Ghost RUVs: " == PromptHead + FixEntry;
    } else {
      NoTwoInPlainPrompt(PromptHead, PlainEnd);
      NotContainsMissingChar(PromptHead + PlainEnd, "2 - Fix", 0);
    }
  }

  // The literal arrives as a parameter so the verifier does not unfold string functions on it.
  lemma FixEntryParts(entry: string)
    requires entry == FixEntry
    ensures entry == "\t " + "2 - Fix" + " Ghost RUVs: "
  {
  }

  // The literal arrives as a parameter so the verifier does not unfold string functions on it.
  lemma NoTwoInPlainPrompt(head: string, end: string)
    requires head == PromptHead && end == PlainEnd
    ensures '2' !in head + end
  {
    assert '2' !in head;
    assert '2' !in end;
  }

  /** The counts shown above the menu. */
  datatype Counts = Counts(ghosts: nat, generation: nat, normal: nat, total: nat)

  /** What the typed line led to. */
  datatype Selection =
    | Exit                                                  // `0`: the process ends
    | ShowAll(listing: seq<ListingLine>, acknowledged: bool) // `1`: false when the read after it met the end of input
    | Resolved(session: Resolver.Session)                   // `2`: the ghost pass
    | NoAction                                              // anything else: back to the main loop
    | MenuInputClosed                                       // the menu read met the end of input

  /** One round: the record search failed (the process ends with the exception), found no
      records (the process ends), or the menu was shown and a selection made. */
  datatype Round =
    | Failed(error: ExtractError)
    | NoRuvsFound
    | Prompted(counts: Counts, prompt: string, selection: Selection, consumed: nat)

  /** Dispatch on the typed line; the line itself is read as is, without evaluation. */
  function Dispatch(basedn: string, all: seq<string>, lines: seq<Resolver.Line>, accepts: Directive.ModifyRequest -> bool): (r: (Selection, nat))
    ensures r.1 <= |lines|
    ensures r.0 == MenuInputClosed <==> |lines| == 0
    ensures r.0.Resolved? <==> |lines| > 0 && lines[0].text == "2"
    ensures r.0.Resolved? ==> r.0.session == Resolver.Resolve(basedn, all, lines[1..], accepts)
    ensures r.0.ShowAll? <==> |lines| > 0 && lines[0].text == "1"
    ensures r.0.ShowAll? ==> r.0.listing == SeeAll(all) && (r.0.acknowledged <==> |lines| > 1)
    ensures r.0 == Exit <==> |lines| > 0 && lines[0].text == "0"
    ensures r.0 == NoAction <==> |lines| > 0 && lines[0].text !in ["0", "1", "2"]
    ensures r.1 == (if |lines| == 0 then 0
                    else if lines[0].text == "1" && |lines| > 1 then 2
                    else if lines[0].text == "2" then 1 + Resolver.Resolve(basedn, all, lines[1..], accepts).consumed
                    else 1)
  {
    if |lines| == 0 then (MenuInputClosed, 0)
    else if lines[0].text == "0" then (Exit, 1)
    else if lines[0].text == "1" then
      if |lines| > 1 then (ShowAll(SeeAll(all), true), 2) else (ShowAll(SeeAll(all), false), 1)
    else if lines[0].text == "2" then
      var s := Resolver.Resolve(basedn, all, lines[1..], accepts);
      (Resolved(s), 1 + s.consumed)
    else (NoAction, 1)
  }

  /** One round of the menu against a search result. */
  function MenuRound(results: SearchResult, basedn: string, lines: seq<Resolver.Line>, accepts: Directive.ModifyRequest -> bool): (round: Round)
    ensures round.Failed? <==> GetRuvs(results).Err?
    ensures round.Failed? ==> round.error == GetRuvs(results).error
    ensures round == NoRuvsFound <==> GetRuvs(results) == Ok([])
    ensures round.Prompted? ==>
              var all := GetRuvs(results).value;
              GetRuvs(results).Ok? && |all| > 0
              && round.counts.total == |all|
              && round.counts.ghosts == |Select(Ghost, all)|
              && round.counts.generation == |Select(Generation, all)|
              && round.counts.normal == |Select(Normal, all)|
              && round.counts.ghosts + round.counts.generation + round.counts.normal == |all| + Overlap(all)
              && round.prompt == MenuPrompt(round.counts.ghosts)
              && round.consumed <= |lines|
              && (round.selection, round.consumed) == Dispatch(basedn, all, lines, accepts)
  {
    match GetRuvs(results)
    case Err(e) => Failed(e)
    case Ok(all) =>
      if |all| == 0 then NoRuvsFound
      else
        CountsAddUp(all);
        var counts := Counts(|Select(Ghost, all)|, |Select(Generation, all)|, |Select(Normal, all)|, |all|);
        var d := Dispatch(basedn, all, lines, accepts);
        Prompted(counts, MenuPrompt(counts.ghosts), d.0, d.1)
  }

  /** A request reaches the server only from the ghost pass: the operator typed `2` at a menu
      line that offered it, and the request is for a ghost record of this round's list,
      addressed to the replica configuration entry of the base DN. */
  lemma ModifyOnlyFromGhostPass(results: SearchResult, basedn: string, lines: seq<Resolver.Line>, accepts: Directive.ModifyRequest -> bool, i: nat)
    requires var round := MenuRound(results, basedn, lines, accepts);
             round.Prompted? && round.selection.Resolved?
             && i < |round.selection.session.offers|
             && Resolver.ModifyIssued(round.selection.session.offers[i].outcome)
    ensures var round := MenuRound(results, basedn, lines, accepts);
            var offer := round.selection.session.offers[i];
            lines[0].text == "2" && Contains(round.prompt, "2 - Fix")
            && offer.ruv in GetRuvs(results).value && InCategory(Ghost, offer.ruv)
            && Resolver.IssuedRequest(offer.outcome).dn == Dn.TargetDn(basedn)
  {
    var round := MenuRound(results, basedn, lines, accepts);
    var all := GetRuvs(results).value;
    var s := round.selection.session;
    assert s == Resolver.Resolve(basedn, all, lines[1..], accepts);
    Resolver.OffersFollowRecordList(basedn, all, lines[1..], accepts);
    SelectIsSubsequence(Ghost, all);
    assert round.counts.ghosts > 0;
    PromptOffersFixIffGhosts(round.counts.ghosts);
  }

  /** Typing `2` when there are no ghosts offers nothing and reads nothing more. */
  lemma FixWithoutGhostsDoesNothing(results: SearchResult, basedn: string, lines: seq<Resolver.Line>, accepts: Directive.ModifyRequest -> bool)
    requires GetRuvs(results).Ok? && |GetRuvs(results).value| > 0
    requires |Select(Ghost, GetRuvs(results).value)| == 0
    requires |lines| > 0 && lines[0].text == "2"
    ensures var round := MenuRound(results, basedn, lines, accepts);
            round.Prompted? && round.counts.ghosts == 0
            && round.selection == Resolved(Resolver.Session([], 0)) && round.consumed == 1
  {
    var all := GetRuvs(results).value;
    assert |Resolver.Resolve(basedn, all, lines[1..], accepts).offers| == 0;
  }
}

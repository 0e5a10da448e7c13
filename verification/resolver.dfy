/** Resolving ghosts: each ghost record is offered in turn, the operator picks ignore or
    delete, a deletion is confirmed, and only then is the CLEANRUV request sent. Any failure
    on the way (an unreadable choice, a choice other than 1, a record without replica id,
    input closed, the server refusing the request) leaves the record ignored and moves on. */
module Resolver {
  import opened Wrappers
  import opened Classifier
  import opened Directive
  import Confirm

  /** The question asked before a deletion; the default answer is no. */
  const DeleteQuestion := "Are you certain that you can delete this ghost record? "

  /** What evaluating a typed line as a Python expression gives, as far as the action lookup
      is concerned: a key equal to 1, some other key, or an exception (syntax error, unknown
      name, unhashable value). */
  datatype Choice = KeyOne | OtherKey | Unreadable

  /** One line of operator input: its text, read as is by the yes/no prompt, and what it
      evaluates to when read as an action. */
  datatype Line = Line(text: string, choice: Choice)

  /** The texts of the lines, in order. */
  function Texts(lines: seq<Line>): (texts: seq<string>)
    ensures |texts| == |lines|
    ensures forall k :: 0 <= k < |lines| ==> texts[k] == lines[k].text
  {
    seq(|lines|, k requires 0 <= k < |lines| => lines[k].text)
  }

  /** Why a ghost was left alone; every cause ends in the same "ignored" message. */
  datatype IgnoreCause =
    | NotKeyOne                             // the action lookup found no entry
    | ChoiceRaised                          // evaluating the line failed
    | InputClosed                           // a read met the end of input
    | NoReplicaId                           // the record has no second token
    | ModifyRejected(request: ModifyRequest) // the server refused the request

  datatype GhostOutcome =
    | Deleted(request: ModifyRequest)
    | Declined
    | Ignored(cause: IgnoreCause)

  /** The outcome sent a modify request to the server, whether or not it was accepted. */
  predicate ModifyIssued(o: GhostOutcome) {
    o.Deleted? || (o.Ignored? && o.cause.ModifyRejected?)
  }

  function IssuedRequest(o: GhostOutcome): ModifyRequest
    requires ModifyIssued(o)
  {
    if o.Deleted? then o.request else o.cause.request
  }

  /** One ghost's outcome and the number of input lines it read. */
  datatype Step = Step(outcome: GhostOutcome, consumed: nat)

  /** One ghost: read the action; on 1 read the replica id (failing before any prompt when
      there is none), ask for confirmation with default no, and on yes send the request,
      which `accepts` says the server applies or refuses. */
  function ResolveOne(basedn: string, ruv: string, lines: seq<Line>, accepts: ModifyRequest -> bool): (s: Step)
    ensures |lines| == 0 ==> s == Step(Ignored(InputClosed), 0)
    ensures |lines| > 0 && (lines[0].choice != KeyOne || ' ' !in ruv) ==> s.consumed == 1
    ensures |lines| > 0 && lines[0].choice == KeyOne && ' ' in ruv ==>
              s.consumed == 1 + Confirm.Confirm(false, Texts(lines[1..])).consumed
    ensures ModifyIssued(s.outcome) <==>
              |lines| > 0 && lines[0].choice == KeyOne && ' ' in ruv
              && Confirm.Confirm(false, Texts(lines[1..])).answer == Some(true)
    ensures ModifyIssued(s.outcome) ==> Some(IssuedRequest(s.outcome)) == CleanupRequest(basedn, ruv)
    ensures s.outcome.Deleted? <==> ModifyIssued(s.outcome) && accepts(IssuedRequest(s.outcome))
    ensures s.outcome == Declined <==>
              |lines| > 0 && lines[0].choice == KeyOne && ' ' in ruv
              && Confirm.Confirm(false, Texts(lines[1..])).answer == Some(false)
  {
    if |lines| == 0 then Step(Ignored(InputClosed), 0)
    else
      match lines[0].choice
      case Unreadable => Step(Ignored(ChoiceRaised), 1)
      case OtherKey => Step(Ignored(NotKeyOne), 1)
      case KeyOne =>
        match CleanupRequest(basedn, ruv)
        case None => Step(Ignored(NoReplicaId), 1)
        case Some(request) =>
          var reply := Confirm.Confirm(false, Texts(lines[1..]));
          var used := 1 + reply.consumed;
          match reply.answer
          case None => Step(Ignored(InputClosed), used)
          case Some(false) => Step(Declined, used)
          case Some(true) =>
            if accepts(request) then Step(Deleted(request), used)
            else Step(Ignored(ModifyRejected(request)), used)
  }

  /** The confirmation line shown before a deletion offers `n` as the default. */
  lemma DeletePromptDefaultsToNo()
    ensures Confirm.PromptText(Some(DeleteQuestion), false) == DeleteQuestion + " [n]|y: "
  {
  }

  /** A ghost record offered to the operator, the position in the input where reading for it
      began, the number of lines read for it, and what became of it. */
  datatype Offer = Offer(ruv: string, start: nat, read: nat, outcome: GhostOutcome)

  /** The offers made in one pass and the input lines the pass read. */
  datatype Session = Session(offers: seq<Offer>, consumed: nat)

  /** Offering the given records one after another, starting at input position `from`, each
      reading the input where the previous one stopped. */
  function ResolveEach(basedn: string, ghosts: seq<string>, lines: seq<Line>, from: nat, accepts: ModifyRequest -> bool): (s: Session)
    requires from <= |lines|
    ensures |s.offers| == |ghosts| && from + s.consumed <= |lines|
    ensures forall i :: 0 <= i < |ghosts| ==>
              s.offers[i].ruv == ghosts[i] && from <= s.offers[i].start && s.offers[i].start + s.offers[i].read <= |lines|
    ensures forall i :: 0 <= i < |ghosts| && ModifyIssued(s.offers[i].outcome) ==>
              Some(IssuedRequest(s.offers[i].outcome)) == CleanupRequest(basedn, ghosts[i])
    decreases |ghosts|
  {
    if |ghosts| == 0 then Session([], 0)
    else
      var first := ResolveOne(basedn, ghosts[0], lines[from..], accepts);
      var rest := ResolveEach(basedn, ghosts[1..], lines, from + first.consumed, accepts);
      Session([Offer(ghosts[0], from, first.consumed, first.outcome)] + rest.offers, first.consumed + rest.consumed)
  }

  /** Offers that read the input in turn from `from`: the first starts there and each later
      one starts where the previous one stopped. */
  predicate ReadInTurn(offers: seq<Offer>, from: nat)
    decreases |offers|
  {
    |offers| == 0 || (offers[0].start == from && ReadInTurn(offers[1..], from + offers[0].read))
  }

  /** Reading in turn, position by position. */
  lemma {:induction false} ReadInTurnAt(offers: seq<Offer>, from: nat)
    requires ReadInTurn(offers, from)
    ensures |offers| > 0 ==> offers[0].start == from
    ensures forall i, j :: 0 <= i && j == i + 1 && j < |offers| ==>
              offers[j].start == offers[i].start + offers[i].read
    decreases |offers|
  {
    if |offers| > 0 {
      var tail := offers[1..];
      ReadInTurnAt(tail, from + offers[0].read);
      forall i, j | 0 <= i && j == i + 1 && j < |offers|
        ensures offers[j].start == offers[i].start + offers[i].read
      {
        assert offers[j] == tail[i];
        if i > 0 {
          assert offers[i] == tail[i - 1];
        }
      }
    }
  }

  /** The offers of a pass read the input in turn from `from`. */
  lemma {:induction false} PassReadsInTurn(basedn: string, ghosts: seq<string>, lines: seq<Line>, from: nat, accepts: ModifyRequest -> bool)
    requires from <= |lines|
    ensures ReadInTurn(ResolveEach(basedn, ghosts, lines, from, accepts).offers, from)
    decreases |ghosts|
  {
    if |ghosts| > 0 {
      var s := ResolveEach(basedn, ghosts, lines, from, accepts);
      var first := ResolveOne(basedn, ghosts[0], lines[from..], accepts);
      var rest := ResolveEach(basedn, ghosts[1..], lines, from + first.consumed, accepts);
      PassReadsInTurn(basedn, ghosts[1..], lines, from + first.consumed, accepts);
      assert s.offers[1..] == rest.offers;
    }
  }

  /** The first offer of a pass starts at `from`, and each later one where the previous one
      stopped reading. */
  lemma OffersReadInTurn(basedn: string, ghosts: seq<string>, lines: seq<Line>, from: nat, accepts: ModifyRequest -> bool)
    requires from <= |lines|
    ensures var s := ResolveEach(basedn, ghosts, lines, from, accepts);
            (|ghosts| > 0 ==> s.offers[0].start == from)
            && forall i, j :: 0 <= i && j == i + 1 && j < |ghosts| ==>
                 s.offers[j].start == s.offers[i].start + s.offers[i].read
  {
    var s := ResolveEach(basedn, ghosts, lines, from, accepts);
    PassReadsInTurn(basedn, ghosts, lines, from, accepts);
    ReadInTurnAt(s.offers, from);
  }

  /** A pass over no records reads nothing; otherwise it reads up to where the last offer
      stopped. */
  lemma {:induction false} PassReadsToLastOffer(basedn: string, ghosts: seq<string>, lines: seq<Line>, from: nat, accepts: ModifyRequest -> bool)
    requires from <= |lines|
    ensures var s := ResolveEach(basedn, ghosts, lines, from, accepts);
            if |ghosts| == 0 then s.consumed == 0
            else from + s.consumed == s.offers[|ghosts| - 1].start + s.offers[|ghosts| - 1].read
    decreases |ghosts|
  {
    if |ghosts| > 0 {
      var s := ResolveEach(basedn, ghosts, lines, from, accepts);
      var first := ResolveOne(basedn, ghosts[0], lines[from..], accepts);
      var rest := ResolveEach(basedn, ghosts[1..], lines, from + first.consumed, accepts);
      PassReadsToLastOffer(basedn, ghosts[1..], lines, from + first.consumed, accepts);
      var head := Offer(ghosts[0], from, first.consumed, first.outcome);
      assert s.offers == [head] + rest.offers;
      if |ghosts| > 1 {
        assert s.offers[|ghosts| - 1] == rest.offers[|ghosts| - 2];
      }
    }
  }

  /** Each offer is what a single ghost makes of the input from the offer's start: the same
      outcome, after reading the same number of lines. */
  lemma {:induction false} OffersFollowInput(basedn: string, ghosts: seq<string>, lines: seq<Line>, from: nat, accepts: ModifyRequest -> bool)
    requires from <= |lines|
    ensures var s := ResolveEach(basedn, ghosts, lines, from, accepts);
            forall i :: 0 <= i < |ghosts| ==>
              Step(s.offers[i].outcome, s.offers[i].read)
              == ResolveOne(basedn, ghosts[i], lines[s.offers[i].start..], accepts)
    decreases |ghosts|
  {
    if |ghosts| > 0 {
      var s := ResolveEach(basedn, ghosts, lines, from, accepts);
      var first := ResolveOne(basedn, ghosts[0], lines[from..], accepts);
      var rest := ResolveEach(basedn, ghosts[1..], lines, from + first.consumed, accepts);
      OffersFollowInput(basedn, ghosts[1..], lines, from + first.consumed, accepts);
      forall i | 0 < i < |ghosts|
        ensures Step(s.offers[i].outcome, s.offers[i].read)
             == ResolveOne(basedn, ghosts[i], lines[s.offers[i].start..], accepts)
      {
        assert s.offers[i] == rest.offers[i - 1] && ghosts[i] == ghosts[1..][i - 1];
      }
    }
  }

  /** The ghost pass over the whole record list: only the records with neither marker are
      offered. */
  function Resolve(basedn: string, all: seq<string>, lines: seq<Line>, accepts: ModifyRequest -> bool): (s: Session)
    ensures |s.offers| == |Select(Ghost, all)| && s.consumed <= |lines|
    ensures forall i :: 0 <= i < |s.offers| ==> InCategory(Ghost, s.offers[i].ruv)
    ensures forall i :: 0 <= i < |s.offers| && ModifyIssued(s.offers[i].outcome) ==>
              IssuedRequest(s.offers[i].outcome).dn == Dn.TargetDn(basedn)
  {
    ResolveEach(basedn, Select(Ghost, all), lines, 0, accepts)
  }

  /** The offers follow the record list: the i-th offer is the i-th ghost at its position in
      the list, and every ghost in the list is offered. */
  lemma OffersFollowRecordList(basedn: string, all: seq<string>, lines: seq<Line>, accepts: ModifyRequest -> bool)
    ensures var s := Resolve(basedn, all, lines, accepts);
            forall i :: 0 <= i < |s.offers| ==> s.offers[i].ruv == all[Positions(Ghost, all)[i]]
    ensures var s := Resolve(basedn, all, lines, accepts);
            forall j :: 0 <= j < |all| && InCategory(Ghost, all[j]) ==>
              exists i :: 0 <= i < |s.offers| && s.offers[i].ruv == all[j]
  {
    var s := Resolve(basedn, all, lines, accepts);
    SelectIsSubsequence(Ghost, all);
    SelectMembership(Ghost, all);
    forall j | 0 <= j < |all| && InCategory(Ghost, all[j])
      ensures exists i :: 0 <= i < |s.offers| && s.offers[i].ruv == all[j]
    {
      var i :| 0 <= i < |Select(Ghost, all)| && Select(Ghost, all)[i] == all[j];
      assert s.offers[i].ruv == all[j];
    }
  }

  /** Without any line evaluating to 1, no request is ever sent. */
  lemma NoKeyOneNoModify(basedn: string, ghosts: seq<string>, lines: seq<Line>, accepts: ModifyRequest -> bool)
    requires forall k :: 0 <= k < |lines| ==> lines[k].choice != KeyOne
    ensures var s := ResolveEach(basedn, ghosts, lines, 0, accepts);
            forall i :: 0 <= i < |s.offers| ==> !ModifyIssued(s.offers[i].outcome)
  {
    var s := ResolveEach(basedn, ghosts, lines, 0, accepts);
    OffersFollowInput(basedn, ghosts, lines, 0, accepts);
    forall i | 0 <= i < |s.offers|
      ensures !ModifyIssued(s.offers[i].outcome)
    {
      var at := s.offers[i].start;
      if at < |lines| {
        assert lines[at..][0] == lines[at];
      }
    }
  }

  /** Without any line reading exactly `y` or `Y`, no request is ever sent: the confirmation
      defaults to no. */
  lemma NoYesNoModify(basedn: string, ghosts: seq<string>, lines: seq<Line>, accepts: ModifyRequest -> bool)
    requires forall k :: 0 <= k < |lines| ==> lines[k].text != "y" && lines[k].text != "Y"
    ensures var s := ResolveEach(basedn, ghosts, lines, 0, accepts);
            forall i :: 0 <= i < |s.offers| ==> !ModifyIssued(s.offers[i].outcome)
  {
    var s := ResolveEach(basedn, ghosts, lines, 0, accepts);
    OffersFollowInput(basedn, ghosts, lines, 0, accepts);
    forall i | 0 <= i < |s.offers|
      ensures !ModifyIssued(s.offers[i].outcome)
    {
      var at := s.offers[i].start;
      if ModifyIssued(s.offers[i].outcome) {
        assert false;
      }
    }
  }

  /** With the input closed every ghost is ignored and nothing is read. */
  lemma ClosedInputIgnoresAll(basedn: string, ghosts: seq<string>, accepts: ModifyRequest -> bool)
    ensures var s := ResolveEach(basedn, ghosts, [], 0, accepts);
            s.consumed == 0 && forall i :: 0 <= i < |s.offers| ==> s.offers[i].outcome == Ignored(InputClosed)
  {
  }

  /** A ghost answered with 1 and then `y`, whose record has a replica id, is deleted when the
      server accepts the request. */
  lemma DeleteOnConfirmedOne(basedn: string, ruv: string, rest: seq<Line>, accepts: ModifyRequest -> bool)
    requires ' ' in ruv
    requires accepts(CleanupRequest(basedn, ruv).value)
    ensures var s := ResolveOne(basedn, ruv, [Line("1", KeyOne), Line("y", Unreadable)] + rest, accepts);
            s == Step(Deleted(CleanupRequest(basedn, ruv).value), 2)
  {
    var lines := [Line("1", KeyOne), Line("y", Unreadable)] + rest;
    assert Texts(lines[1..])[0] == "y";
    assert "y" in Confirm.Letters;
  }
}

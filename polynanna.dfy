/** The drawing of polynanna.py: participants and their restricted sets,
    the hat of names still undrawn, and the attempt loop that assigns every
    participant someone to give to. */
module PolyNanna {
  import opened DrawSpec

  /** One person in the exchange. `name` is never reassigned; the restricted
      set grows when history is merged, and `givingTo` is overwritten by
      every drawing attempt that reaches this participant. */
  class Participant {
    const name: Name
    var restrictedSet: set<Name>
    var givingTo: Option<Name>

    constructor (name: Name, restrictedSet: set<Name>, givingTo: Option<Name>)
      ensures this.name == name
      ensures this.restrictedSet == restrictedSet
      ensures this.givingTo == givingTo
    {
      this.name := name;
      this.restrictedSet := restrictedSet;
      this.givingTo := givingTo;
    }

    /** Adds the recipient of every past entry recorded under this
        participant's name to its restricted set. A name missing from the
        history is a lookup failure (`ok` false) that adds nothing. */
    method BuildHistory(history: map<Name, seq<HistoryEntry>>) returns (ok: bool)
      modifies this`restrictedSet
      ensures ok <==> name in history
      ensures ok ==> restrictedSet == old(restrictedSet) + Recipients(history[name])
      ensures !ok ==> restrictedSet == old(restrictedSet)
    {
      if name !in history {
        return false;
      }
      var years := history[name];
      var i := 0;
      while i < |years|
        invariant 0 <= i <= |years|
        invariant restrictedSet == old(restrictedSet) + Recipients(years[..i])
      {
        RecipientsSnoc(years[..i], years[i]);
        assert years[..i + 1] == years[..i] + [years[i]];
        restrictedSet := restrictedSet + {years[i].recipient};
        i := i + 1;
      }
      assert years[..i] == years;
      ok := true;
    }
  }

  /** The names of `ps`, in order. */
  function Names(ps: seq<Participant>): (r: seq<Name>)
    ensures |r| == |ps|
    ensures forall i :: 0 <= i < |ps| ==> r[i] == ps[i].name
  {
    seq(|ps|, i requires 0 <= i < |ps| => ps[i].name)
  }

  /** The restricted sets of `ps`, in order. */
  ghost function Restrictions(ps: seq<Participant>): (r: seq<set<Name>>)
    reads ps
    ensures |r| == |ps|
    ensures forall i :: 0 <= i < |ps| ==> r[i] == ps[i].restrictedSet
  {
    seq(|ps|, i reads ps requires 0 <= i < |ps| => ps[i].restrictedSet)
  }

  /** Restricted sets that no field update touched read the same. */
  twostate lemma RestrictionsUnchanged(ps: seq<Participant>)
    requires forall k :: 0 <= k < |ps| ==> ps[k].restrictedSet == old(ps[k].restrictedSet)
    ensures Restrictions(ps) == old(Restrictions(ps))
  {
  }

  /** Index of the first name in `names` that is not a key of `keys`, or
      `|names|` when every name is one. */
  function FirstMissing(names: seq<Name>, keys: set<Name>): (k: nat)
    ensures k <= |names|
    ensures forall i :: 0 <= i < k ==> names[i] in keys
    ensures k < |names| ==> names[k] !in keys
  {
    if names == [] || names[0] !in keys then 0 else 1 + FirstMissing(names[1..], keys)
  }

  /** The names still undrawn in one attempt. */
  class Hat {
    var contents: set<Name>

    /** A fresh hat holds the name of every participant. */
    constructor (participants: seq<Participant>)
      ensures contents == Elements(Names(participants))
    {
      contents := Elements(Names(participants));
    }

    /** Draws an arbitrary name that is in the hat and outside the
        participant's restricted set, without taking it out. When no such
        name exists the draw fails (`None`). */
    method Select(participant: Participant) returns (choice: Option<Name>)
      ensures choice.Some? <==> contents - participant.restrictedSet != {}
      ensures choice.Some? ==> choice.value in contents && choice.value !in participant.restrictedSet
    {
      var eligible := contents - participant.restrictedSet;
      if eligible == {} {
        choice := None;
      } else {
        var name :| name in eligible;
        choice := Some(name);
      }
    }
  }

  /** The participants, in data order, and the number of failed attempts. */
  class Polyanna {
    var participants: seq<Participant>
    var failcount: nat

    /** No participant object occurs twice in the list. */
    ghost predicate Valid()
      reads this
    {
      forall i, j :: 0 <= i < j < |participants| ==> participants[i] != participants[j]
    }

    constructor ()
      ensures Valid()
      ensures participants == [] && failcount == 0
    {
      participants := [];
      failcount := 0;
    }

    /** Appends one new participant per entry of `data`, in order, with that
        entry's name and its own copy of the entry's restricted set. */
    method BuildParticipants(data: seq<(Name, set<Name>)>)
      requires Valid()
      modifies this`participants
      ensures Valid()
      ensures |participants| == |old(participants)| + |data|
      ensures participants[..|old(participants)|] == old(participants)
      ensures forall j :: |old(participants)| <= j < |participants| ==>
        && fresh(participants[j])
        && participants[j].name == data[j - |old(participants)|].0
        && participants[j].restrictedSet == data[j - |old(participants)|].1
        && participants[j].givingTo == None
    {
      var n := |participants|;
      var k := 0;
      while k < |data|
        invariant 0 <= k <= |data|
        invariant Valid()
        invariant |participants| == n + k
        invariant participants[..n] == old(participants)
        invariant forall j :: n <= j < |participants| ==>
          && fresh(participants[j])
          && participants[j].name == data[j - n].0
          && participants[j].restrictedSet == data[j - n].1
          && participants[j].givingTo == None
      {
        var (key, restricted) := data[k];
        var p := new Participant(key, restricted, None);
        participants := participants + [p];
        k := k + 1;
      }
    }

    /** Merges every participant's history into its restricted set, in list
        order. The first participant whose name has no history stops the
        merge (`ok` false): those before it are merged, it and those after
        it are untouched. */
    method BuildAllHistory(history: map<Name, seq<HistoryEntry>>) returns (ok: bool)
      requires Valid()
      modifies participants`restrictedSet
      ensures Valid()
      ensures ok <==> forall i :: 0 <= i < |participants| ==> participants[i].name in history
      ensures forall i :: 0 <= i < FirstMissing(Names(participants), history.Keys) ==>
        participants[i].restrictedSet == old(participants[i].restrictedSet) + Recipients(history[participants[i].name])
      ensures forall i :: FirstMissing(Names(participants), history.Keys) <= i < |participants| ==>
        participants[i].restrictedSet == old(participants[i].restrictedSet)
    {
      ghost var stop := FirstMissing(Names(participants), history.Keys);
      var i := 0;
      while i < |participants|
        invariant 0 <= i <= stop
        invariant forall k :: 0 <= k < i ==>
          participants[k].restrictedSet == old(participants[k].restrictedSet) + Recipients(history[participants[k].name])
        invariant forall k :: i <= k < |participants| ==>
          participants[k].restrictedSet == old(participants[k].restrictedSet)
      {
        ok := participants[i].BuildHistory(history);
        if !ok {
          return;
        }
        i := i + 1;
      }
      ok := true;
    }

    /** One attempt (the body of the retry loop): walks the participants in
        order, drawing each one's recipient from `hat` and taking it out.
        `drawn` is what the attempt assigned. The attempt completes when
        every participant got a name; it fails, and `failcount` grows by
        one, at the first participant for whom the hat holds nothing outside
        the restricted set. Assignments made before the failure are kept:
        nothing is rolled back. `restricted` names the participants'
        restricted sets, which the attempt reads and does not change. */
    method TryDraw(hat: Hat, ghost restricted: seq<set<Name>>) returns (completed: bool, ghost drawn: seq<Name>)
      requires Valid()
      requires restricted == Restrictions(participants)
      modifies hat, participants`givingTo, this`failcount
      ensures |drawn| <= |participants|
      ensures completed <==> |drawn| == |participants|
      ensures ValidDraw(old(hat.contents), restricted, drawn)
      ensures Restrictions(participants) == restricted
      ensures hat.contents == old(hat.contents) - Elements(drawn)
      ensures |hat.contents| == |old(hat.contents)| - |drawn|
      ensures forall k :: 0 <= k < |participants| ==>
        participants[k].givingTo == if k < |drawn| then Some(drawn[k]) else old(participants[k].givingTo)
      ensures !completed ==> hat.contents - participants[|drawn|].restrictedSet == {}
      ensures !completed ==> Stuck(old(hat.contents), restricted, drawn)
      ensures failcount == old(failcount) + (if completed then 0 else 1)
      ensures Valid()
    {
      ghost var pool := hat.contents;
      var ps := participants;
      drawn := [];
      completed := true;
      var i := 0;
      while completed && i < |ps|
        invariant 0 <= i <= |ps|
        invariant |drawn| == i
        invariant ValidDraw(pool, restricted, drawn)
        invariant hat.contents == pool - Elements(drawn)
        invariant !completed ==> i < |ps| && hat.contents - restricted[i] == {}
        invariant forall k :: 0 <= k < |ps| ==>
          ps[k].givingTo == if k < i then Some(drawn[k]) else old(ps[k].givingTo)
        invariant failcount == old(failcount) + (if completed then 0 else 1)
      {
        var participant := ps[i];
        assert participant.restrictedSet == restricted[i];
        var choice := hat.Select(participant);
        if choice.None? {
          // the hat has nothing left for this participant: the attempt is abandoned
          failcount := failcount + 1;
          completed := false;
        } else {
          var name := choice.value;
          DrawStep(pool, restricted, drawn, hat.contents, name);
          assert forall k :: 0 <= k < |ps| && k != i ==> ps[k] != participant;
          participant.givingTo := Some(name);
          hat.contents := hat.contents - {name};
          drawn := drawn + [name];
          i := i + 1;
        }
      }
      HatShrinks(pool, restricted, drawn);
      RestrictionsUnchanged(ps);
    }

    /** Runs attempts, each with a fresh hat, until one completes or
        `maxAttempts` have been made. A completed run has assigned every
        participant a distinct participant name outside its restricted set,
        every name is given to exactly once, and every failed attempt on the
        way added one to `failcount`. `attempts` is how many attempts ran,
        and `failed` holds what each failed attempt drew before it got stuck. */
    method RunDrawingUntilCompleted(maxAttempts: nat)
      returns (completed: bool, ghost drawn: seq<Name>, ghost attempts: nat, ghost failed: seq<seq<Name>>)
      requires Valid()
      modifies participants`givingTo, this`failcount
      ensures Valid()
      ensures |failed| == failcount - old(failcount)
      ensures forall k :: 0 <= k < |failed| ==>
        Stuck(Elements(Names(participants)), Restrictions(participants), failed[k])
      ensures attempts <= maxAttempts
      ensures !completed ==> attempts == maxAttempts
      ensures completed ==> attempts >= 1
      ensures failcount == old(failcount) + attempts - (if completed then 1 else 0)
      ensures old(failcount) <= failcount
      ensures !completed ==> failcount == old(failcount) + maxAttempts
      ensures completed ==> failcount < old(failcount) + maxAttempts
      ensures completed ==> |drawn| == |participants|
      ensures completed ==> forall i :: 0 <= i < |participants| ==> participants[i].givingTo == Some(drawn[i])
      ensures completed ==> ValidDraw(Elements(Names(participants)), Restrictions(participants), drawn)
      ensures completed ==> Distinct(drawn)
      ensures completed ==> Distinct(Names(participants)) && Elements(drawn) == Elements(Names(participants))
      ensures completed ==> forall i :: 0 <= i < |participants| && participants[i].name in participants[i].restrictedSet ==>
        participants[i].givingTo != Some(participants[i].name)
    {
      var ps := participants;
      ghost var pool := Elements(Names(ps));
      ghost var restricted := Restrictions(ps);
      completed := false;
      drawn := [];
      failed := [];
      var tries := 0;
      while !completed && tries < maxAttempts
        invariant 0 <= tries <= maxAttempts
        invariant failcount == old(failcount) + tries - (if completed then 1 else 0)
        invariant |failed| == failcount - old(failcount)
        invariant Restrictions(ps) == restricted
        invariant AllStuck(pool, restricted, failed)
        invariant completed ==> tries >= 1
        invariant completed ==> |drawn| == |ps|
        invariant completed ==> forall i :: 0 <= i < |ps| ==> ps[i].givingTo == Some(drawn[i])
        invariant completed ==> ValidDraw(pool, restricted, drawn)
      {
        var hat := new Hat(ps);
        completed, drawn := TryDraw(hat, restricted);
        if !completed {
          StuckSnoc(pool, restricted, failed, drawn);
          failed := failed + [drawn];
        }
        tries := tries + 1;
      }
      attempts := tries;
      AllStuckEach(pool, restricted, failed);
      if completed {
        CompletedDrawIsBijection(Names(ps), restricted, drawn);
        forall i | 0 <= i < |ps| ensures drawn[i] !in ps[i].restrictedSet {
          assert ps[i].restrictedSet == restricted[i];
        }
      }
    }
  }
}

/** Officer positions, officer records and the authentication groups they
    imply (`OfficerPosition`, `Officer` and `Term.update_term_officer_groups`,
    base/models.py). Groups are identified by name; a user's group
    memberships are a map from user id to a set of names. */
module Officers {
  import opened Results
  import opened Text
  import opened Terms

  datatype Position = Position(shortName: string, longName: string, executive: bool, auxiliary: bool)

  /** `term.current if term else False`. */
  predicate IsCurrentTerm(term: Option<Term>)
  {
    term.Some? && term.value.current
  }

  /** The groups a position implies in any term: its own name, "Officer"
      unless auxiliary, and "Executive" if executive. */
  function BaseGroups(p: Position): set<string>
  {
    {p.longName}
    + (if !p.auxiliary then {"Officer"} else {})
    + (if p.executive then {"Executive"} else {})
  }

  function CurrentName(name: string): string
  {
    "Current " + name
  }

  lemma CurrentNameDistinct(name: string)
    ensures CurrentName(name) != name
    ensures CurrentName(name) != "Officer"
    ensures CurrentName(name) != "Executive"
  {
    assert |CurrentName(name)| == 8 + |name|;
    assert CurrentName(name)[0] == 'C';
  }

  /** One group name followed, in the current term, by its "Current" twin. */
  function Tagged(name: string, current: bool): (r: seq<string>)
    ensures forall g :: g in r <==> g == name || (current && g == CurrentName(name))
  {
    if current then [name, CurrentName(name)] else [name]
  }

  /** `get_corresponding_groups`: the position's name, "Officer" unless
      auxiliary, "Executive" if executive, each followed by its "Current"
      variant exactly when the term is the current one. */
  function CorrespondingGroups(p: Position, term: Option<Term>): (r: seq<string>)
    ensures |r| > 0 && r[0] == p.longName
    ensures "Officer" in r <==> !p.auxiliary || p.longName == "Officer"
    ensures "Executive" in r <==> p.executive || p.longName == "Executive"
    ensures CurrentName(p.longName) in r <==> IsCurrentTerm(term)
    ensures forall g :: g in r <==>
      g in BaseGroups(p) || (IsCurrentTerm(term) && exists b :: b in BaseGroups(p) && g == CurrentName(b))
  {
    var cur := IsCurrentTerm(term);
    CurrentNameDistinct(p.longName);
    CurrentNameDistinct("Officer");
    CurrentNameDistinct("Executive");
    assert forall b :: CurrentName(b) != "Officer" && CurrentName(b) != "Executive" by {
      forall b ensures CurrentName(b) != "Officer" && CurrentName(b) != "Executive" {
        CurrentNameDistinct(b);
      }
    }
    var own := Tagged(p.longName, cur);
    var officer: seq<string> := if !p.auxiliary then Tagged("Officer", cur) else [];
    var executive: seq<string> := if p.executive then Tagged("Executive", cur) else [];
    assert forall g :: g in own + officer + executive <==> g in own || g in officer || g in executive;
    own + officer + executive
  }

  /** An officer record: a user holding a position in the term with key `term`. */
  datatype Officer = Officer(user: nat, position: Position, term: int, isChair: bool)

  /** `position_name`: the position's name, with " Chair" appended for a chair. */
  function PositionName(o: Officer): (r: string)
    ensures StartsWith(r, o.position.longName)
    ensures o.isChair <==> |r| > |o.position.longName|
    ensures o.isChair ==> r[|o.position.longName|..] == " Chair"
  {
    if o.isChair then o.position.longName + " Chair" else o.position.longName
  }

  /** The term row an officer record refers to. */
  function TermOf(store: seq<Term>, id: int): (r: Option<Term>)
    ensures r.Some? ==> r.value in store && r.value.id == Some(id)
    ensures r.None? ==> forall u :: u in store ==> u.id != Some(id)
  {
    var hits := Where(store, (u: Term) => u.id == Some(id));
    if hits == [] then None else Some(hits[0])
  }

  /** The groups one officer record implies, with its term as stored. */
  function Implied(store: seq<Term>, o: Officer): set<string>
  {
    set g | g in CorrespondingGroups(o.position, TermOf(store, o.term))
  }

  /** The groups a user's officer records in `officers` imply together. */
  function ImpliedFor(store: seq<Term>, officers: set<Officer>, user: nat): set<string>
  {
    set o, g | o in officers && o.user == user && g in Implied(store, o) :: g
  }

  lemma ImpliedForMember(store: seq<Term>, officers: set<Officer>, o: Officer)
    requires o in officers
    ensures Implied(store, o) <= ImpliedFor(store, officers, o.user)
  {
    forall g | g in Implied(store, o) ensures g in ImpliedFor(store, officers, o.user) {
    }
  }

  lemma ImpliedForNobody(store: seq<Term>, officers: set<Officer>, user: nat)
    requires forall o :: o in officers ==> o.user != user
    ensures ImpliedFor(store, officers, user) == {}
  {
  }

  type Groups = map<nat, set<string>>

  /** `user.groups`: the groups of a user, empty for one with none. */
  function GroupsOf(groups: Groups, user: nat): set<string>
  {
    if user in groups then groups[user] else {}
  }

  /** `_add_user_to_officer_groups`: the officer's user gains the groups the
      record implies; nobody else's groups change. */
  function AddUserToOfficerGroups(store: seq<Term>, groups: Groups, o: Officer): (r: Groups)
    ensures Implied(store, o) <= GroupsOf(r, o.user)
    ensures GroupsOf(groups, o.user) <= GroupsOf(r, o.user)
    ensures GroupsOf(r, o.user) <= GroupsOf(groups, o.user) + Implied(store, o)
    ensures forall u :: u != o.user ==> GroupsOf(r, u) == GroupsOf(groups, u)
  {
    groups[o.user := GroupsOf(groups, o.user) + Implied(store, o)]
  }

  /** `_remove_user_from_officer_groups`, run after the record is deleted:
      `remaining` holds the officer records still stored. The user loses
      exactly the groups this record implies and no remaining record of the
      user implies; every other group and every other user is untouched. */
  function RemoveUserFromOfficerGroups(store: seq<Term>, remaining: set<Officer>, groups: Groups, o: Officer): (r: Groups)
    ensures GroupsOf(r, o.user) <= GroupsOf(groups, o.user)
    ensures GroupsOf(groups, o.user) * ImpliedFor(store, remaining, o.user) <= GroupsOf(r, o.user)
    ensures GroupsOf(groups, o.user) - Implied(store, o) <= GroupsOf(r, o.user)
    ensures GroupsOf(r, o.user) !! (Implied(store, o) - ImpliedFor(store, remaining, o.user))
    ensures forall u :: u != o.user ==> GroupsOf(r, u) == GroupsOf(groups, u)
  {
    var stale := Implied(store, o) - ImpliedFor(store, remaining, o.user);
    groups[o.user := GroupsOf(groups, o.user) - stale]
  }

  // ---------------------------------------------------------------------------
  // Officers, terms and groups together

  datatype Org = Org(terms: seq<Term>, officers: set<Officer>, groups: Groups)

  /** Every user belongs to every group their officer records imply. */
  predicate Covered(st: Org)
  {
    forall o :: o in st.officers ==> Implied(st.terms, o) <= GroupsOf(st.groups, o.user)
  }

  /** Two records for the same user, position and term: the table's
      `unique_together` key. */
  predicate SameSlot(x: Officer, y: Officer)
  {
    x.user == y.user && x.position == y.position && x.term == y.term
  }

  /** No two records share user, position and term. */
  predicate UniqueSlots(officers: set<Officer>)
  {
    forall x, y :: x in officers && y in officers && SameSlot(x, y) ==> x == y
  }

  /** Saving an officer record, followed by the `post_save` signal. The
      saved row takes the place of a stored row with the same user,
      position and term (an edit of its chair flag); otherwise it is new. */
  function AddOfficer(st: Org, o: Officer): (r: Org)
    ensures r.terms == st.terms
    ensures forall x :: x in r.officers <==> x == o || (x in st.officers && !SameSlot(x, o))
    ensures Implied(st.terms, o) <= GroupsOf(r.groups, o.user)
    ensures GroupsOf(r.groups, o.user) <= GroupsOf(st.groups, o.user) + Implied(st.terms, o)
    ensures forall u :: GroupsOf(st.groups, u) <= GroupsOf(r.groups, u)
    ensures forall u :: u != o.user ==> GroupsOf(r.groups, u) == GroupsOf(st.groups, u)
  {
    var others := set x | x in st.officers && !SameSlot(x, o);
    st.(officers := others + {o}, groups := AddUserToOfficerGroups(st.terms, st.groups, o))
  }

  /** Saving a record keeps the records unique on user, position and term,
      and the saved record is the only one in its slot. */
  lemma AddOfficerKeepsSlotsUnique(st: Org, o: Officer)
    requires UniqueSlots(st.officers)
    ensures UniqueSlots(AddOfficer(st, o).officers)
    ensures forall x :: x in AddOfficer(st, o).officers && SameSlot(x, o) ==> x == o
  {
    var after := AddOfficer(st, o).officers;
    forall x, y | x in after && y in after && SameSlot(x, y) ensures x == y {
      if x == o || y == o {
        assert SameSlot(x, o) && SameSlot(y, o);
      }
    }
  }

  /** Deleting an officer record, followed by the `post_delete` signal. */
  function DeleteOfficer(st: Org, o: Officer): (r: Org)
    ensures r.terms == st.terms && r.officers == st.officers - {o}
    ensures forall u :: GroupsOf(r.groups, u) <= GroupsOf(st.groups, u)
    ensures GroupsOf(st.groups, o.user) - Implied(st.terms, o) <= GroupsOf(r.groups, o.user)
    ensures GroupsOf(st.groups, o.user) * ImpliedFor(st.terms, r.officers, o.user) <= GroupsOf(r.groups, o.user)
    ensures GroupsOf(r.groups, o.user) !! (Implied(st.terms, o) - ImpliedFor(st.terms, r.officers, o.user))
    ensures forall u :: u != o.user ==> GroupsOf(r.groups, u) == GroupsOf(st.groups, u)
  {
    var remaining := st.officers - {o};
    st.(officers := remaining, groups := RemoveUserFromOfficerGroups(st.terms, remaining, st.groups, o))
  }

  lemma AddOfficerKeepsCover(st: Org, o: Officer)
    requires Covered(st)
    ensures Covered(AddOfficer(st, o))
  {
  }

  /** Deleting a record never takes away a group another record of the same
      user still implies. */
  lemma DeleteOfficerKeepsCover(st: Org, o: Officer)
    requires Covered(st)
    ensures Covered(DeleteOfficer(st, o))
  {
    var after := DeleteOfficer(st, o);
    forall x | x in after.officers
      ensures Implied(st.terms, x) <= GroupsOf(after.groups, x.user)
    {
      if x.user == o.user {
        ImpliedForMember(st.terms, after.officers, x);
      }
    }
  }

  /** Group names the term save clears: every name containing "Current". */
  predicate MentionsCurrent(g: string)
  {
    Contains(g, "Current")
  }

  /** The officer records held in term `t`: `Officer.objects.filter(term=t)`. */
  function InTerm(officers: set<Officer>, t: Term): (r: set<Officer>)
    ensures r <= officers
    ensures t.id.None? ==> r == {}
    ensures forall o :: o in officers && t.id == Some(o.term) ==> o in r
    ensures forall o :: o in r ==> t.id == Some(o.term)
  {
    set o | o in officers && t.id == Some(o.term)
  }

  /** `update_term_officer_groups`: for a current term, every group whose
      name contains "Current" is emptied, then each officer of the term gets
      their groups again; for any other term nothing happens. */
  function UpdateTermOfficerGroups(store: seq<Term>, officers: set<Officer>, groups: Groups, t: Term): (r: Groups)
    ensures !t.current ==> r == groups
    ensures t.current ==> forall u, g {:trigger g in GroupsOf(r, u)} :: MentionsCurrent(g) ==>
      (g in GroupsOf(r, u) <==> g in ImpliedFor(store, InTerm(officers, t), u))
    ensures t.current ==> forall u, g {:trigger g in GroupsOf(r, u)} :: !MentionsCurrent(g) ==>
      (g in GroupsOf(r, u) <==> g in GroupsOf(groups, u) || g in ImpliedFor(store, InTerm(officers, t), u))
  {
    if !t.current then groups
    else
      var members := InTerm(officers, t);
      var users := groups.Keys + set o | o in members :: o.user;
      var r := map u | u in users ::
        (set g | g in GroupsOf(groups, u) && !MentionsCurrent(g)) + ImpliedFor(store, members, u);
      forall u | u !in users ensures ImpliedFor(store, members, u) == {} {
        ImpliedForNobody(store, members, u);
      }
      r
  }

  /** `Term.save` together with its call to `update_term_officer_groups`. */
  function SaveTerm(st: Org, t: Term): (r: Result<Org, SaveError>)
    requires Valid(st.terms)
    ensures r.Failure? <==> Save(st.terms, t).Failure?
    ensures r.Success? ==> Valid(r.value.terms) && r.value.officers == st.officers
    ensures IsPlaceholder(t) ==> r == Success(st)
    ensures r.Success? && !t.current ==> r.value.groups == st.groups
    ensures r.Success? && !IsPlaceholder(t) ==> r.value.terms == Save(st.terms, t).value.0
    ensures r.Success? && !IsPlaceholder(t) && t.current ==>
      forall u, g {:trigger g in GroupsOf(r.value.groups, u)} :: MentionsCurrent(g) ==>
        (g in GroupsOf(r.value.groups, u) <==>
          exists o :: o in st.officers && o.user == u && o.term == Pk(t) && g in Implied(r.value.terms, o))
    ensures r.Success? && !IsPlaceholder(t) && t.current ==>
      forall u, g {:trigger g in GroupsOf(r.value.groups, u)} :: !MentionsCurrent(g) ==>
        (g in GroupsOf(r.value.groups, u) <==>
          || g in GroupsOf(st.groups, u)
          || exists o :: o in st.officers && o.user == u && o.term == Pk(t) && g in Implied(r.value.terms, o))
  {
    match Save(st.terms, t)
    case Failure(e) => Failure(e)
    case Success((rows, saved)) =>
      if IsPlaceholder(t) then Success(st)
      else Success(Org(rows, st.officers, UpdateTermOfficerGroups(rows, st.officers, st.groups, saved)))
  }

  // ---------------------------------------------------------------------------
  // Saving a term keeps every user in the groups their records imply

  lemma ShortDoesNotContain(s: string, sub: string)
    requires |s| < |sub|
    ensures !Contains(s, sub)
    decreases |s|
  {
    if s != [] {
      ShortDoesNotContain(s[1..], sub);
    }
  }

  lemma FixedNamesDoNotMentionCurrent()
    ensures !MentionsCurrent("Officer")
    ensures !MentionsCurrent("Executive")
  {
    ShortDoesNotContain("fficer", "Current");
    ShortDoesNotContain("cutive", "Current");
    assert "Executive"[..7][0] != "Current"[0];
    assert !StartsWith("xecutive", "Current");
    assert !StartsWith("ecutive", "Current");
  }

  /** The groups of a record in a term that is not current are its base groups. */
  lemma ImpliedWhenNotCurrent(store: seq<Term>, o: Officer)
    ensures BaseGroups(o.position) <= Implied(store, o)
    ensures !IsCurrentTerm(TermOf(store, o.term)) ==> Implied(store, o) == BaseGroups(o.position)
  {
  }

  /** What a record implies depends on the tables only through whether its
      term is current. */
  lemma ImpliedDependsOnCurrent(s1: seq<Term>, s2: seq<Term>, o: Officer)
    requires IsCurrentTerm(TermOf(s1, o.term)) == IsCurrentTerm(TermOf(s2, o.term))
    ensures Implied(s1, o) == Implied(s2, o)
  {
  }

  /** After a save, a record whose term is not the saved one is current only
      if it was current before and the saved term is not current. */
  lemma SaveKeepsOtherTermsCurrency(store: seq<Term>, t: Term, id: int)
    requires Valid(store) && !IsPlaceholder(t) && Save(store, t).Success?
    requires id != Pk(t)
    requires IsCurrentTerm(TermOf(Save(store, t).value.0, id))
    ensures !t.current
    ensures IsCurrentTerm(TermOf(store, id))
  {
    SaveFrame(store, t);
    var (rows, saved) := Save(store, t).value;
    var w := TermOf(rows, id).value;
    assert w != saved;
    assert w in store;
    var v := TermOf(store, id);
    assert v.Some?;
    PkDeterminesRow(store, v.value, w);
  }

  /** The base groups of a record whose term is not current after the save
      survive it, since their names do not mention "Current". */
  lemma BaseGroupsSurviveSave(st: Org, t: Term, o: Officer)
    requires Valid(st.terms) && Covered(st) && !IsPlaceholder(t) && Save(st.terms, t).Success?
    requires o in st.officers && !MentionsCurrent(o.position.longName)
    requires !IsCurrentTerm(TermOf(Save(st.terms, t).value.0, o.term))
    ensures Implied(Save(st.terms, t).value.0, o) <= GroupsOf(SaveTerm(st, t).value.groups, o.user)
  {
    var rows := Save(st.terms, t).value.0;
    var saved := Save(st.terms, t).value.1;
    ImpliedWhenNotCurrent(rows, o);
    ImpliedWhenNotCurrent(st.terms, o);
    assert BaseGroups(o.position) <= GroupsOf(st.groups, o.user);
    BaseGroupsUnmentioned(o.position);
    UnmentionedGroupsSurvive(rows, st.officers, st.groups, saved, o.user, BaseGroups(o.position));
  }

  lemma BaseGroupsUnmentioned(p: Position)
    requires !MentionsCurrent(p.longName)
    ensures forall g :: g in BaseGroups(p) ==> !MentionsCurrent(g)
  {
    FixedNamesDoNotMentionCurrent();
    UnmentionedWithin(BaseGroups(p), p.longName, "Officer", "Executive");
  }

  lemma UnmentionedWithin(gs: set<string>, a: string, b: string, c: string)
    requires gs <= {a, b, c}
    requires !MentionsCurrent(a) && !MentionsCurrent(b) && !MentionsCurrent(c)
    ensures forall g :: g in gs ==> !MentionsCurrent(g)
  {
  }

  /** Groups whose names do not mention "Current" survive `update_term_officer_groups`. */
  lemma UnmentionedGroupsSurvive(store: seq<Term>, officers: set<Officer>, groups: Groups, t: Term, user: nat, gs: set<string>)
    requires gs <= GroupsOf(groups, user)
    requires forall g :: g in gs ==> !MentionsCurrent(g)
    ensures gs <= GroupsOf(UpdateTermOfficerGroups(store, officers, groups, t), user)
  {
  }

  /** One officer record keeps its groups across a term save. */
  lemma SaveTermCoversOfficer(st: Org, t: Term, o: Officer)
    requires Valid(st.terms) && Covered(st) && !IsPlaceholder(t) && Save(st.terms, t).Success?
    requires o in st.officers && !MentionsCurrent(o.position.longName)
    ensures Implied(Save(st.terms, t).value.0, o) <= GroupsOf(SaveTerm(st, t).value.groups, o.user)
  {
    var (rows, saved) := Save(st.terms, t).value;
    if o.term == Pk(t) {
      if saved.current {
        assert o in InTerm(st.officers, saved);
        ImpliedForMember(rows, InTerm(st.officers, saved), o);
      } else {
        var w := TermOf(rows, o.term);
        if w.Some? {
          PkDeterminesRow(rows, w.value, saved);
        }
        BaseGroupsSurviveSave(st, t, o);
      }
    } else if IsCurrentTerm(TermOf(rows, o.term)) {
      SaveKeepsOtherTermsCurrency(st.terms, t, o.term);
      ImpliedDependsOnCurrent(rows, st.terms, o);
    } else {
      BaseGroupsSurviveSave(st, t, o);
    }
  }

  /** Saving a term keeps every user in every group their officer records
      imply, provided no position name contains "Current" (such a name would
      be emptied by the save and refilled only for the saved term). */
  lemma SaveTermKeepsCover(st: Org, t: Term)
    requires Valid(st.terms) && Covered(st) && SaveTerm(st, t).Success?
    requires forall o :: o in st.officers ==> !MentionsCurrent(o.position.longName)
    ensures Covered(SaveTerm(st, t).value)
  {
    if !IsPlaceholder(t) {
      forall o | o in st.officers
        ensures Implied(SaveTerm(st, t).value.terms, o) <= GroupsOf(SaveTerm(st, t).value.groups, o.user)
      {
        SaveTermCoversOfficer(st, t, o);
      }
    }
  }

  // ---------------------------------------------------------------------------
  // A position whose own name contains "Current"

  const AffairsPosition := Position("CA", "Current Affairs", false, false)
  const PastTerm := Term(Some(20124), Fall, 2012, false)
  const NewTerm := Term(None, Winter, 2013, true)
  const PastOfficer := Officer(1, AffairsPosition, 20124, false)
  const BeforeSave := Org([PastTerm], {PastOfficer}, map[1 := {"Current Affairs", "Officer"}])

  /** The table before the save is valid and every record is covered. */
  lemma BeforeSaveCovered()
    ensures Valid(BeforeSave.terms) && Covered(BeforeSave)
  {
    assert TermOf(BeforeSave.terms, 20124) == Some(PastTerm);
    ImpliedWhenNotCurrent(BeforeSave.terms, PastOfficer);
  }

  /** The past holder's records imply the group "Current Affairs", whose
      name mentions "Current", in any table. */
  lemma AffairsGroupImplied(store: seq<Term>)
    ensures MentionsCurrent("Current Affairs")
    ensures "Current Affairs" in Implied(store, PastOfficer)
  {
    assert StartsWith("Current Affairs", "Current");
    ContainsPrefixOf("Current Affairs", "Current");
    ImpliedWhenNotCurrent(store, PastOfficer);
  }

  /** As written, saving a new current term empties the group "Current
      Affairs", which is the own group of a position, and gives it back only
      to officers of the saved term: the Fall 2012 holder loses it. */
  lemma SaveTermDropsCurrentNamedGroup()
    ensures Valid(BeforeSave.terms) && Covered(BeforeSave)
    ensures SaveTerm(BeforeSave, NewTerm).Success?
    ensures !Covered(SaveTerm(BeforeSave, NewTerm).value)
  {
    var st := BeforeSave;
    BeforeSaveCovered();
    assert Pk(NewTerm) == 20131 && !IsPlaceholder(NewTerm);
    var after := SaveTerm(st, NewTerm).value;
    AffairsGroupImplied(after.terms);
    assert forall o :: o in st.officers ==> o == PastOfficer && o.term != Pk(NewTerm);
    assert "Current Affairs" !in GroupsOf(after.groups, 1);
    assert PastOfficer in after.officers && PastOfficer.user == 1;
  }

  /** `update_term_officer_groups` as intended: after the "Current" groups are
      emptied every officer record's groups are granted again, so a group
      that is some position's own name is restored to its holders. */
  function UpdateTermOfficerGroupsCorrected(store: seq<Term>, officers: set<Officer>, groups: Groups, t: Term): (r: Groups)
    ensures !t.current ==> r == groups
    ensures t.current ==> forall u, g {:trigger g in GroupsOf(r, u)} :: g in GroupsOf(r, u) <==>
      g in ImpliedFor(store, officers, u) || (!MentionsCurrent(g) && g in GroupsOf(groups, u))
  {
    if !t.current then groups
    else
      var users := groups.Keys + set o | o in officers :: o.user;
      var r := map u | u in users ::
        (set g | g in GroupsOf(groups, u) && !MentionsCurrent(g)) + ImpliedFor(store, officers, u);
      forall u | u !in users ensures ImpliedFor(store, officers, u) == {} {
        ImpliedForNobody(store, officers, u);
      }
      r
  }

  /** `Term.save` with the corrected group update. */
  function SaveTermCorrected(st: Org, t: Term): (r: Result<Org, SaveError>)
    requires Valid(st.terms)
    ensures r.Failure? <==> Save(st.terms, t).Failure?
    ensures r.Success? ==> Valid(r.value.terms) && r.value.officers == st.officers
    ensures IsPlaceholder(t) ==> r == Success(st)
    ensures r.Success? && !t.current ==> r.value.groups == st.groups
    ensures r.Success? && !IsPlaceholder(t) ==> r.value.terms == Save(st.terms, t).value.0
    ensures r.Success? && !IsPlaceholder(t) && t.current ==>
      forall u, g {:trigger g in GroupsOf(r.value.groups, u)} :: g in GroupsOf(r.value.groups, u) <==>
        g in ImpliedFor(r.value.terms, st.officers, u) || (!MentionsCurrent(g) && g in GroupsOf(st.groups, u))
  {
    var saved := Save(st.terms, t);
    if saved.Failure? then Failure(saved.error)
    else if IsPlaceholder(t) then Success(st)
    else
      var (rows, row) := saved.value;
      assert Valid(rows) && row.current == t.current;
      var groups := UpdateTermOfficerGroupsCorrected(rows, st.officers, st.groups, row);
      assert !t.current ==> groups == st.groups;
      var after := Org(rows, st.officers, groups);
      assert after.terms == rows && after.officers == st.officers && after.groups == groups;
      assert t.current ==> forall u, g {:trigger g in GroupsOf(after.groups, u)} :: g in GroupsOf(after.groups, u) <==>
        g in ImpliedFor(after.terms, st.officers, u) || (!MentionsCurrent(g) && g in GroupsOf(st.groups, u));
      Success(after)
  }

  /** With the correction a term save keeps every user in every group their
      officer records imply, whatever the positions are called. */
  lemma SaveTermCorrectedKeepsCover(st: Org, t: Term)
    requires Valid(st.terms) && Covered(st) && SaveTermCorrected(st, t).Success?
    ensures Covered(SaveTermCorrected(st, t).value)
  {
    if !IsPlaceholder(t) {
      var rows := Save(st.terms, t).value.0;
      var after := SaveTermCorrected(st, t).value;
      assert after.terms == rows && after.officers == st.officers;
      if t.current {
        RegroupedCovers(st, after);
      } else {
        forall o | o in st.officers ensures Implied(rows, o) <= GroupsOf(after.groups, o.user) {
          SaveTermCorrectedCoversIdle(st, t, o);
        }
      }
    }
  }

  /** Groups rebuilt from every record's implied groups cover every record. */
  lemma RegroupedCovers(st: Org, after: Org)
    requires after.officers == st.officers
    requires forall u, g {:trigger g in GroupsOf(after.groups, u)} :: g in GroupsOf(after.groups, u) <==>
      g in ImpliedFor(after.terms, st.officers, u) || (!MentionsCurrent(g) && g in GroupsOf(st.groups, u))
    ensures Covered(after)
  {
    forall o | o in after.officers ensures Implied(after.terms, o) <= GroupsOf(after.groups, o.user) {
      ImpliedForMember(after.terms, st.officers, o);
      forall g | g in Implied(after.terms, o) ensures g in GroupsOf(after.groups, o.user) {
        assert g in ImpliedFor(after.terms, st.officers, o.user);
      }
    }
  }

  /** A non-current save changes no groups and no record's currency. */
  lemma SaveTermCorrectedCoversIdle(st: Org, t: Term, o: Officer)
    requires Valid(st.terms) && Covered(st) && !IsPlaceholder(t) && Save(st.terms, t).Success?
    requires !t.current && o in st.officers
    ensures Implied(Save(st.terms, t).value.0, o) <= GroupsOf(SaveTermCorrected(st, t).value.groups, o.user)
  {
    var (rows, saved) := Save(st.terms, t).value;
    if o.term != Pk(t) && IsCurrentTerm(TermOf(rows, o.term)) {
      SaveKeepsOtherTermsCurrency(st.terms, t, o.term);
      ImpliedDependsOnCurrent(rows, st.terms, o);
    } else {
      if o.term == Pk(t) {
        var w := TermOf(rows, o.term);
        if w.Some? {
          PkDeterminesRow(rows, w.value, saved);
        }
      }
      ImpliedWhenNotCurrent(rows, o);
      ImpliedWhenNotCurrent(st.terms, o);
    }
  }
}

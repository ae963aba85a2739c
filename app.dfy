/** The application shell: it owns the participant list and the active tab,
    rebuilds the list from the names the list editor sends, and enables the
    draw and grouping tabs only while the list is non-empty. */
module App {
  import opened Types
  import opened Text
  import ListManager

  /** `handleUpdateParticipants`: every input name gets the id drawn for it
      (`ids[k]` for `names[k]`), is trimmed, and is dropped if then empty. */
  function BuildParticipants(names: seq<string>, ids: seq<Id>): (ps: seq<Participant>)
    requires |ids| == |names|
    ensures |ps| <= |names|
  {
    if names == [] then []
    else
      var p := Participant(ids[0], Trim(names[0]));
      (if p.name == [] then [] else [p]) + BuildParticipants(names[1..], ids[1..])
  }

  /** Every stored name is non-empty and trimmed. */
  lemma BuildParticipantsCleanNames(names: seq<string>, ids: seq<Id>)
    requires |ids| == |names|
    ensures forall k :: 0 <= k < |BuildParticipants(names, ids)| ==>
      IsCleanName(BuildParticipants(names, ids)[k].name)
  {
    BuildParticipantsNames(names, ids);
    CleanYieldsCleanNames(names);
    var ps := BuildParticipants(names, ids);
    forall k | 0 <= k < |ps| ensures IsCleanName(ps[k].name) {
      assert Names(ps)[k] == ps[k].name;
    }
  }

  /** Every stored id is one of the ids drawn for the input names. */
  lemma {:induction false} BuildParticipantsIds(names: seq<string>, ids: seq<Id>)
    requires |ids| == |names|
    ensures forall p :: p in BuildParticipants(names, ids) ==> p.id in ids
  {
    if names != [] {
      BuildParticipantsIds(names[1..], ids[1..]);
      assert forall q :: q in ids[1..] ==> q in ids;
    }
  }

  /** The k-th stored participant is named by the trim of the k-th input name
      that is not blank: the stored names are exactly the cleaned input. */
  lemma {:induction false} BuildParticipantsNames(names: seq<string>, ids: seq<Id>)
    requires |ids| == |names|
    ensures Names(BuildParticipants(names, ids)) == Clean(names)
  {
    if names != [] {
      BuildParticipantsNames(names[1..], ids[1..]);
      var p := Participant(ids[0], Trim(names[0]));
      var rest := BuildParticipants(names[1..], ids[1..]);
      NamesAppend(if p.name == [] then [] else [p], rest);
    }
  }

  lemma {:induction false} NamesAppend(a: seq<Participant>, b: seq<Participant>)
    ensures Names(a + b) == Names(a) + Names(b)
  {
    if a == [] {
      assert a + b == b;
    } else {
      assert (a + b)[1..] == a[1..] + b;
      NamesAppend(a[1..], b);
    }
  }

  /** Names that are already clean (as the list editor's parse produces) are
      all kept, each with the id drawn for it, in order. */
  lemma {:induction false} BuildParticipantsKeepsCleanNames(names: seq<string>, ids: seq<Id>)
    requires |ids| == |names|
    requires forall k :: 0 <= k < |names| ==> IsCleanName(names[k])
    ensures |BuildParticipants(names, ids)| == |names|
    ensures forall k :: 0 <= k < |names| ==> BuildParticipants(names, ids)[k] == Participant(ids[k], names[k])
  {
    if names != [] {
      BuildParticipantsKeepsCleanNames(names[1..], ids[1..]);
      var rest := BuildParticipants(names[1..], ids[1..]);
      assert BuildParticipants(names, ids) == [Participant(ids[0], names[0])] + rest;
    }
  }

  /** Applying text in the editor stores one participant per parsed name. */
  lemma ApplyStoresEveryParsedName(text: string, ids: seq<Id>)
    requires |ids| == |ListManager.Parse(text)|
    ensures Names(BuildParticipants(ListManager.Parse(text), ids)) == ListManager.Parse(text)
  {
    ListManager.ParseYieldsCleanNames(text);
    BuildParticipantsNames(ListManager.Parse(text), ids);
    CleanOfCleanNames(ListManager.Parse(text));
  }

  /** The draw and grouping tab buttons are disabled while the list is empty;
      the list tab button never is. */
  predicate TabEnabled(tab: Tab, participants: seq<Participant>)
  {
    tab == List || participants != []
  }

  /** A file read finishes after the user has moved to the draw tab. The file
      holds no names, so the list becomes empty while the draw panel is shown. */
  lemma LateBlankUploadEmptiesDrawTab()
    ensures ListManager.Parse(",\n") == []
    ensures BuildParticipants(ListManager.Parse(",\n"), []) == []
    ensures !TabEnabled(Draw, BuildParticipants(ListManager.Parse(",\n"), []))
  {
    ListManager.ParseEmptyIffBlank(",\n");
  }

  class AppState {
    var activeTab: Tab
    var participants: seq<Participant>

    /** The active tab is one whose button is enabled: the draw and grouping
        panels are shown only with a non-empty list. */
    ghost predicate Valid()
      reads this
    {
      TabEnabled(activeTab, participants)
    }

    constructor ()
      ensures Valid()
      ensures activeTab == List && participants == []
    {
      activeTab := List;
      participants := [];
    }

    /** A click on a tab button; a disabled button ignores it. The list tab
        button is never disabled, so clicking it also leaves a draw or grouping
        panel that a late update emptied. */
    method SelectTab(tab: Tab)
      modifies this
      ensures old(Valid()) || tab == List ==> Valid()
      ensures activeTab == (if TabEnabled(tab, participants) then tab else old(activeTab))
      ensures participants == old(participants)
    {
      if TabEnabled(tab, participants) {
        activeTab := tab;
      }
    }

    /** `handleUpdateParticipants`. Apply and clear-all reach it from the list
        tab, but a file read calls it whenever the read finishes, on whatever
        tab is then active. The new list replaces the old one wholesale and the
        tab stays, so an empty list arriving off the list tab leaves a draw or
        grouping panel with nobody in it. */
    method UpdateParticipants(names: seq<string>, ids: seq<Id>)
      requires |ids| == |names|
      modifies this
      ensures participants == BuildParticipants(names, ids)
      ensures activeTab == old(activeTab)
    {
      participants := BuildParticipants(names, ids);
    }

    /** The update with the guard the tab buttons imply: when the new list is
        empty, fall back to the list tab. */
    method UpdateParticipantsGuarded(names: seq<string>, ids: seq<Id>)
      requires |ids| == |names|
      modifies this
      ensures Valid()
      ensures participants == BuildParticipants(names, ids)
      ensures activeTab == (if participants == [] then List else old(activeTab))
    {
      participants := BuildParticipants(names, ids);
      if participants == [] {
        activeTab := List;
      }
    }
  }
}

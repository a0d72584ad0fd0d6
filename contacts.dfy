/**
 * The contacts screen (assignments/App.js): the search filter that keeps a
 * contact whose lower-cased name contains the lower-cased query or whose
 * number contains the query, and `groupContacts`, which splits contacts
 * into the fixed sections Family, Friends and Office and drops the empty ones.
 */
module Contacts {
  import opened JsBuiltins

  datatype Contact = Contact(name: string, number: string, group: string)

  datatype Section = Section(title: string, data: seq<Contact>)

  /** The section titles, in the order they are shown. */
  const Groups: seq<string> := ["Family", "Friends", "Office"]

  // ---------------------------------------------------------------------------
  // The search filter

  /** The filter's test for one contact under the query `search`. */
  function MatchesSearch(search: string): Contact -> bool
  {
    (c: Contact) => Includes(ToLowerCase(c.name), ToLowerCase(search)) || Includes(c.number, search)
  }

  /** `contacts.filter(...)` with the search test. */
  function FilterContacts(contacts: seq<Contact>, search: string): (r: seq<Contact>)
    ensures IsSubseq(r, contacts)
  {
    FilterIsSubseq(MatchesSearch(search), contacts);
    Filter(MatchesSearch(search), contacts)
  }

  /**
   * A contact is kept, as often as it occurs, exactly when its lower-cased
   * name contains the lower-cased query at some position or its number
   * contains the query at some position.
   */
  lemma FilterContactsExact(contacts: seq<Contact>, search: string)
    ensures forall c :: c in FilterContacts(contacts, search) <==>
      c in contacts &&
      ((exists i :: OccursAt(ToLowerCase(c.name), ToLowerCase(search), i)) || (exists i :: OccursAt(c.number, search, i)))
    ensures forall c ::
      multiset(FilterContacts(contacts, search))[c] == if MatchesSearch(search)(c) then multiset(contacts)[c] else 0
  {
    FilterMembers(MatchesSearch(search), contacts);
    forall c ensures MatchesSearch(search)(c) <==>
      (exists i :: OccursAt(ToLowerCase(c.name), ToLowerCase(search), i)) || (exists i :: OccursAt(c.number, search, i))
    {
      IncludesAt(ToLowerCase(c.name), ToLowerCase(search));
      IncludesAt(c.number, search);
    }
    forall c ensures multiset(FilterContacts(contacts, search))[c] ==
      if MatchesSearch(search)(c) then multiset(contacts)[c] else 0
    {
      FilterMultiplicity(MatchesSearch(search), contacts, c);
    }
  }

  /** The empty query keeps every contact. */
  lemma FilterContactsEmptySearch(contacts: seq<Contact>)
    ensures FilterContacts(contacts, "") == contacts
  {
    forall c | c in contacts ensures MatchesSearch("")(c) {
      IncludesEmpty(ToLowerCase(c.name));
    }
    FilterKeepsAll(MatchesSearch(""), contacts);
  }

  // ---------------------------------------------------------------------------
  // Grouping

  function InGroup(group: string): Contact -> bool
  {
    (c: Contact) => c.group == group
  }

  function SectionFor(contacts: seq<Contact>): string -> Section
  {
    (group: string) => Section(group, Filter(InGroup(group), contacts))
  }

  predicate NonEmpty(section: Section)
  {
    |section.data| > 0
  }

  function TitleOf(section: Section): string
  {
    section.title
  }

  function Titles(sections: seq<Section>): seq<string>
  {
    Map(TitleOf, sections)
  }

  /**
   * `groupContacts(contacts)`: one section per fixed group, in the fixed
   * order, holding that group's contacts; sections left empty are dropped.
   */
  function GroupContacts(contacts: seq<Contact>): (r: seq<Section>)
    ensures |r| <= |Groups|
    ensures forall k :: 0 <= k < |r| ==> |r[k].data| > 0
    ensures forall k :: 0 <= k < |r| ==> r[k].title in Groups
    ensures forall k :: 0 <= k < |r| ==> r[k].data == Filter(InGroup(r[k].title), contacts)
  {
    var all := Map(SectionFor(contacts), Groups);
    var r := Filter(NonEmpty, all);
    assert forall k :: 0 <= k < |r| ==> r[k] in all;
    r
  }

  /**
   * The section titles are an order-preserving subsequence of Family,
   * Friends, Office: no title twice, never more than three sections.
   */
  lemma GroupTitlesOrdered(contacts: seq<Contact>)
    ensures IsSubseq(Titles(GroupContacts(contacts)), Groups)
    ensures Distinct(Titles(GroupContacts(contacts)))
    ensures |GroupContacts(contacts)| <= 3
  {
    var all := Map(SectionFor(contacts), Groups);
    MapFilterIsSubseq(TitleOf, NonEmpty, all);
    TitlesOfAllSections(contacts);
    GroupsDistinct();
    SubseqDistinct(Titles(GroupContacts(contacts)), Groups);
  }

  lemma TitlesOfAllSections(contacts: seq<Contact>)
    ensures Map(TitleOf, Map(SectionFor(contacts), Groups)) == Groups
  {
    var all := Map(SectionFor(contacts), Groups);
    assert forall i :: 0 <= i < |Groups| ==> Map(TitleOf, all)[i] == Groups[i];
  }

  lemma GroupsDistinct()
    ensures Distinct(Groups)
  {
  }

  /**
   * Each section holds, in input order and as often as they occur, exactly
   * the contacts of its group.
   */
  lemma GroupSectionsExact(contacts: seq<Contact>)
    ensures var r := GroupContacts(contacts);
      forall k :: 0 <= k < |r| ==>
        && IsSubseq(r[k].data, contacts)
        && forall c :: multiset(r[k].data)[c] == if c.group == r[k].title then multiset(contacts)[c] else 0
  {
    var r := GroupContacts(contacts);
    forall k | 0 <= k < |r|
      ensures IsSubseq(r[k].data, contacts)
      ensures forall c :: multiset(r[k].data)[c] == if c.group == r[k].title then multiset(contacts)[c] else 0
    {
      FilterIsSubseq(InGroup(r[k].title), contacts);
      forall c ensures multiset(r[k].data)[c] == if c.group == r[k].title then multiset(contacts)[c] else 0 {
        FilterMultiplicity(InGroup(r[k].title), contacts, c);
      }
    }
  }

  /** A fixed group gets a section exactly when some contact belongs to it. */
  lemma GroupSectionPresent(contacts: seq<Contact>, g: string)
    requires g in Groups
    ensures g in Titles(GroupContacts(contacts)) <==> exists c :: c in contacts && c.group == g
  {
    if c :| c in contacts && c.group == g {
      GroupWithContactShown(contacts, g, c);
    }
    if g in Titles(GroupContacts(contacts)) {
      ShownGroupHasContact(contacts, g);
    }
  }

  lemma GroupWithContactShown(contacts: seq<Contact>, g: string, c: Contact)
    requires g in Groups && c in contacts && c.group == g
    ensures g in Titles(GroupContacts(contacts))
  {
    var r := GroupContacts(contacts);
    SectionKept(contacts, g, c);
    var k :| 0 <= k < |r| && r[k] == Section(g, Filter(InGroup(g), contacts));
    assert Titles(r)[k] == g;
  }

  lemma ShownGroupHasContact(contacts: seq<Contact>, g: string)
    requires g in Titles(GroupContacts(contacts))
    ensures exists c :: c in contacts && c.group == g
  {
    var r := GroupContacts(contacts);
    var k :| 0 <= k < |r| && Titles(r)[k] == g;
    var c := r[k].data[0];
    assert c in r[k].data;
    assert c in contacts && c.group == g;
  }

  /** A fixed group with a contact in it has its section among those kept. */
  lemma SectionKept(contacts: seq<Contact>, g: string, c: Contact)
    requires g in Groups && c in contacts && c.group == g
    ensures Section(g, Filter(InGroup(g), contacts)) in Filter(NonEmpty, Map(SectionFor(contacts), Groups))
  {
    var d := Filter(InGroup(g), contacts);
    FilterMultiplicity(InGroup(g), contacts, c);
    assert c in d;
    var all := Map(SectionFor(contacts), Groups);
    var i :| 0 <= i < |Groups| && Groups[i] == g;
    assert all[i] == Section(g, d);
    FilterMultiplicity(NonEmpty, all, all[i]);
  }

  /** Sum of the section sizes. */
  function TotalSize(sections: seq<Section>): nat
  {
    if sections == [] then 0 else |sections[0].data| + TotalSize(sections[1..])
  }

  function InFixedGroup(c: Contact): bool
  {
    c.group in Groups
  }

  lemma {:induction false} TotalSizeDropsEmpty(sections: seq<Section>)
    ensures TotalSize(Filter(NonEmpty, sections)) == TotalSize(sections)
    decreases |sections|
  {
    if sections != [] {
      TotalSizeDropsEmpty(sections[1..]);
      if NonEmpty(sections[0]) {
        assert Filter(NonEmpty, sections)[1..] == Filter(NonEmpty, sections[1..]);
      }
    }
  }

  lemma {:induction false} GroupSizesAddUp(contacts: seq<Contact>)
    ensures |Filter(InGroup("Family"), contacts)| + |Filter(InGroup("Friends"), contacts)|
      + |Filter(InGroup("Office"), contacts)| == |Filter(InFixedGroup, contacts)|
    decreases |contacts|
  {
    if contacts != [] {
      GroupSizesAddUp(contacts[1..]);
    }
  }

  /**
   * Contacts outside the three groups are dropped: the sections together hold
   * as many contacts as there are input contacts in a fixed group.
   */
  lemma GroupTotal(contacts: seq<Contact>)
    ensures TotalSize(GroupContacts(contacts)) == |Filter(InFixedGroup, contacts)|
  {
    var all := Map(SectionFor(contacts), Groups);
    TotalSizeDropsEmpty(all);
    assert all == [SectionFor(contacts)("Family"), SectionFor(contacts)("Friends"), SectionFor(contacts)("Office")];
    assert all[1..][1..][1..] == [];
    assert TotalSize(all) == |all[0].data| + TotalSize(all[1..]);
    assert TotalSize(all[1..]) == |all[1].data| + TotalSize(all[1..][1..]);
    assert TotalSize(all[1..][1..]) == |all[2].data|;
    GroupSizesAddUp(contacts);
  }

  // ---------------------------------------------------------------------------
  // The screen: the filter feeds the grouping

  /** The sections shown for the query `search`. */
  function VisibleSections(contacts: seq<Contact>, search: string): (r: seq<Section>)
    ensures forall k, c :: 0 <= k < |r| && c in r[k].data ==>
      c in contacts && c.group == r[k].title && MatchesSearch(search)(c)
    ensures forall k :: 0 <= k < |r| ==>
      r[k].data == Filter(InGroup(r[k].title), FilterContacts(contacts, search))
  {
    var shown := FilterContacts(contacts, search);
    SubseqMembers(shown, contacts);
    GroupContacts(shown)
  }

  /**
   * Conversely, every input contact of a fixed group that matches the query
   * is shown, in the section titled by its group.
   */
  lemma VisibleSectionsComplete(contacts: seq<Contact>, search: string, c: Contact)
    requires c in contacts && c.group in Groups && MatchesSearch(search)(c)
    ensures var r := VisibleSections(contacts, search);
      exists k :: 0 <= k < |r| && r[k].title == c.group && c in r[k].data
  {
    var shown := FilterContacts(contacts, search);
    var r := VisibleSections(contacts, search);
    assert r == GroupContacts(shown);
    FilterMembers(MatchesSearch(search), contacts);
    assert c in shown;
    GroupWithContactShown(shown, c.group, c);
    var k :| 0 <= k < |r| && Titles(r)[k] == c.group;
    assert r[k].title == c.group;
    assert r[k].data == Filter(InGroup(c.group), shown);
    FilterMembers(InGroup(c.group), shown);
    assert c in r[k].data;
  }
}

/**
  The `classSubjectRows` view of the subject page: class offerings grouped
  by their populated class, each group labelled "name-section" and listing
  "subject (maxMarks)", the groups sorted by label.
 */
module SubjectPage {
  import opened Common
  import opened Text
  import opened Grouping

  /** A populated `classId` of an offering. */
  datatype ClassView = ClassView(id: string, name: Option<string>, section: Option<string>)

  /** An offering as listed; `classRef` is `None` unless the class was populated. */
  datatype OfferingItem = OfferingItem(classRef: Option<ClassView>, subjectName: Option<string>, maxMarks: Option<int>)

  datatype Group = Group(classLabel: string, subjects: seq<string>)

  /** One own property of the accumulator object: the class id and its group. */
  datatype Bucket = Bucket(classId: string, group: Group)

  /** `item?.classId?._id || ''`, with "" meaning the offering is dropped. */
  function GroupKey(item: OfferingItem): Option<string> {
    if item.classRef.Some? && item.classRef.value.id != "" then Some(item.classRef.value.id) else None
  }

  /** `${name || '-'}-${section || '-'}` of the offering's class. */
  function ClassLabel(item: OfferingItem): string {
    var name := if item.classRef.Some? then item.classRef.value.name else None;
    var section := if item.classRef.Some? then item.classRef.value.section else None;
    OrDash(name) + "-" + OrDash(section)
  }

  /** `${subjectName || '-'} (${maxMarks ?? 0})`. */
  function SubjectEntry(item: OfferingItem): string {
    OrDash(item.subjectName) + " (" + IntToDecimal(item.maxMarks.GetOr(0)) + ")"
  }

  /** A label never loses its separator, and missing parts show as "-". */
  lemma LabelShape(item: OfferingItem)
    ensures item.classRef.None? ==> ClassLabel(item) == "---"
    ensures item.classRef.Some? && !Truthy(item.classRef.value.name) && !Truthy(item.classRef.value.section) ==> ClassLabel(item) == "---"
    ensures item.classRef.Some? && Truthy(item.classRef.value.name) && Truthy(item.classRef.value.section) ==>
      ClassLabel(item) == item.classRef.value.name.value + "-" + item.classRef.value.section.value
  {
  }

  /** A missing subject shows as "-" and a missing max-marks as 0; present max marks are written in decimal. */
  lemma EntryShape(item: OfferingItem)
    ensures item.subjectName.None? && item.maxMarks.None? ==> SubjectEntry(item) == "- (0)"
    ensures item.maxMarks.Some? && item.maxMarks.value >= 0 ==>
      SubjectEntry(item) == OrDash(item.subjectName) + " (" + NatToDecimal(item.maxMarks.value) + ")"
  {
    assert NatToDecimal(0) == "0";
  }

  // ---------------------------------------------------------------------------
  // The reduce as written

  function IndexOfClass(buckets: seq<Bucket>, id: string): (i: Option<nat>)
    ensures i.Some? ==> i.value < |buckets| && buckets[i.value].classId == id
    ensures i.None? ==> forall j :: 0 <= j < |buckets| ==> buckets[j].classId != id
  {
    if buckets == [] then None
    else if buckets[0].classId == id then Some(0)
    else
      match IndexOfClass(buckets[1..], id)
      case None => None
      case Some(j) => Some(j + 1)
  }

  function AddSubject(g: Group, item: OfferingItem): Group {
    g.(subjects := g.subjects + [SubjectEntry(item)])
  }

  /** One call of the reducer: drop a classless offering, else create the class's group if new and push the entry. */
  function Step(buckets: seq<Bucket>, item: OfferingItem): seq<Bucket> {
    match GroupKey(item)
    case None => buckets
    case Some(id) =>
      match IndexOfClass(buckets, id)
      case None => buckets + [Bucket(id, AddSubject(Group(ClassLabel(item), []), item))]
      case Some(i) => buckets[i := Bucket(id, AddSubject(buckets[i].group, item))]
  }

  /** The accumulator after the reduce; its properties in insertion order, as ObjectId keys keep it. */
  function Grouped(items: seq<OfferingItem>): seq<Bucket> {
    if items == [] then [] else Step(Grouped(items[..|items| - 1]), items[|items| - 1])
  }

  /** `Object.values(grouped)`. */
  function Values(buckets: seq<Bucket>): (gs: seq<Group>)
    ensures |gs| == |buckets|
    ensures forall i :: 0 <= i < |buckets| ==> gs[i] == buckets[i].group
  {
    seq(|buckets|, i requires 0 <= i < |buckets| => buckets[i].group)
  }

  // ---------------------------------------------------------------------------
  // The groups, stated independently

  function SubjectEntries(items: seq<OfferingItem>): (es: seq<string>)
    ensures |es| == |items|
    ensures forall i :: 0 <= i < |items| ==> es[i] == SubjectEntry(items[i])
  {
    seq(|items|, i requires 0 <= i < |items| => SubjectEntry(items[i]))
  }

  /** The group of a non-empty set of offerings of one class: the first one's label, every entry in order. */
  function GroupOf(members: seq<OfferingItem>): Group
    requires members != []
  {
    Group(ClassLabel(members[0]), SubjectEntries(members))
  }

  function GroupFor(items: seq<OfferingItem>, id: string): Group
    requires id in Order(items, GroupKey)
  {
    OccursHasMembers(items, GroupKey, id);
    GroupOf(Members(items, GroupKey, id))
  }

  /** The groups of the given class ids, in that order. */
  function GroupsFor(items: seq<OfferingItem>, ids: seq<string>): (gs: seq<Group>)
    requires forall i :: 0 <= i < |ids| ==> ids[i] in Order(items, GroupKey)
    ensures |gs| == |ids|
    ensures forall i :: 0 <= i < |ids| ==> gs[i] == GroupFor(items, ids[i])
  {
    seq(|ids|, i requires 0 <= i < |ids| => GroupFor(items, ids[i]))
  }

  ghost predicate Matches(buckets: seq<Bucket>, items: seq<OfferingItem>) {
    && |buckets| == |Order(items, GroupKey)|
    && forall i :: 0 <= i < |buckets| ==>
      buckets[i] == Bucket(Order(items, GroupKey)[i], GroupFor(items, Order(items, GroupKey)[i]))
  }

  lemma GroupOfSnoc(members: seq<OfferingItem>, item: OfferingItem)
    requires members != []
    ensures GroupOf(members + [item]) == AddSubject(GroupOf(members), item)
  {
    LastOf(members, item);
    assert SubjectEntries(members + [item]) == SubjectEntries(members) + [SubjectEntry(item)];
  }

  lemma OpenedGroup(item: OfferingItem)
    ensures GroupOf([item]) == AddSubject(Group(ClassLabel(item), []), item)
  {
    assert SubjectEntries([item]) == [SubjectEntry(item)];
    assert [] + [SubjectEntry(item)] == [SubjectEntry(item)];
  }

  lemma SeenGroupSnoc(items: seq<OfferingItem>, item: OfferingItem, id: string)
    requires id in Order(items, GroupKey) && GroupKey(item) != Some(id)
    ensures id in Order(items + [item], GroupKey)
    ensures GroupFor(items + [item], id) == GroupFor(items, id)
  {
    OtherKeySnoc(items, GroupKey, item, id);
  }

  lemma SkipMatches(buckets: seq<Bucket>, items: seq<OfferingItem>, item: OfferingItem)
    requires Matches(buckets, items) && GroupKey(item).None?
    ensures Matches(Step(buckets, item), items + [item])
  {
    var o := Order(items, GroupKey);
    OrderSnoc(items, GroupKey, item);
    forall i | 0 <= i < |buckets|
      ensures buckets[i] == Bucket(o[i], GroupFor(items + [item], o[i]))
    {
      SeenGroupSnoc(items, item, o[i]);
    }
  }

  /** The first offering of a class not seen yet makes that class's group, at the end of the order. */
  lemma NewGroup(items: seq<OfferingItem>, item: OfferingItem)
    requires GroupKey(item).Some? && GroupKey(item).value !in Order(items, GroupKey)
    ensures Order(items + [item], GroupKey) == Order(items, GroupKey) + [GroupKey(item).value]
    ensures GroupFor(items + [item], GroupKey(item).value) == AddSubject(Group(ClassLabel(item), []), item)
  {
    NewKeySnoc(items, GroupKey, item, GroupKey(item).value);
    OpenedGroup(item);
  }

  lemma OpenMatches(buckets: seq<Bucket>, items: seq<OfferingItem>, item: OfferingItem)
    requires Matches(buckets, items) && GroupKey(item).Some?
    requires IndexOfClass(buckets, GroupKey(item).value).None?
    ensures Matches(Step(buckets, item), items + [item])
  {
    var id := GroupKey(item).value;
    var o := Order(items, GroupKey);
    assert id !in o;
    NewGroup(items, item);
    var b' := buckets + [Bucket(id, AddSubject(Group(ClassLabel(item), []), item))];
    assert Step(buckets, item) == b';
    forall i | 0 <= i < |buckets|
      ensures b'[i] == Bucket(o[i], GroupFor(items + [item], o[i]))
    {
      SeenGroupSnoc(items, item, o[i]);
    }
  }

  /** A further offering of a class already seen extends that class's group. */
  lemma GrownGroup(items: seq<OfferingItem>, item: OfferingItem)
    requires GroupKey(item).Some? && GroupKey(item).value in Order(items, GroupKey)
    ensures Order(items + [item], GroupKey) == Order(items, GroupKey)
    ensures GroupFor(items + [item], GroupKey(item).value) == AddSubject(GroupFor(items, GroupKey(item).value), item)
  {
    var id := GroupKey(item).value;
    SeenKeySnoc(items, GroupKey, item, id);
    OccursHasMembers(items, GroupKey, id);
    GroupOfSnoc(Members(items, GroupKey, id), item);
  }

  lemma AddMatches(buckets: seq<Bucket>, items: seq<OfferingItem>, item: OfferingItem, j: nat)
    requires Matches(buckets, items) && GroupKey(item).Some?
    requires IndexOfClass(buckets, GroupKey(item).value) == Some(j)
    ensures Matches(Step(buckets, item), items + [item])
  {
    var id := GroupKey(item).value;
    var o := Order(items, GroupKey);
    assert o[j] == id;
    GrownGroup(items, item);
    var b' := buckets[j := Bucket(id, AddSubject(buckets[j].group, item))];
    assert Step(buckets, item) == b';
    forall i | 0 <= i < |b'| && i != j
      ensures b'[i] == Bucket(o[i], GroupFor(items + [item], o[i]))
    {
      assert o[i] != id;
      SeenGroupSnoc(items, item, o[i]);
    }
  }

  lemma StepMatches(buckets: seq<Bucket>, items: seq<OfferingItem>, item: OfferingItem)
    requires Matches(buckets, items)
    ensures Matches(Step(buckets, item), items + [item])
  {
    if GroupKey(item).None? {
      SkipMatches(buckets, items, item);
    } else {
      var j := IndexOfClass(buckets, GroupKey(item).value);
      if j.None? {
        OpenMatches(buckets, items, item);
      } else {
        AddMatches(buckets, items, item, j.value);
      }
    }
  }

  /**
    The reduce leaves one group per distinct populated class, in the order
    each class first appears; each is labelled from the class's first
    offering and lists every offering of that class in input order.
   */
  lemma {:induction false} GroupedIsGrouping(items: seq<OfferingItem>)
    ensures Matches(Grouped(items), items)
    decreases |items|
  {
    if items != [] {
      var init := items[..|items| - 1];
      var item := items[|items| - 1];
      assert items == init + [item];
      GroupedIsGrouping(init);
      StepMatches(Grouped(init), init, item);
    }
  }

  /** How many subject entries the groups list together. */
  function EntryTotal(gs: seq<Group>): nat {
    if gs == [] then 0 else EntryTotal(gs[..|gs| - 1]) + |gs[|gs| - 1].subjects|
  }

  lemma {:induction false} EntryTotalOfGroups(items: seq<OfferingItem>, ids: seq<string>)
    requires forall i :: 0 <= i < |ids| ==> ids[i] in Order(items, GroupKey)
    ensures EntryTotal(GroupsFor(items, ids)) == GroupSizes(items, GroupKey, ids)
    decreases |ids|
  {
    if ids != [] {
      var init := ids[..|ids| - 1];
      EntryTotalOfGroups(items, init);
      assert GroupsFor(items, ids)[..|ids| - 1] == GroupsFor(items, init);
    }
  }

  /** Every offering with a populated class is listed in exactly one group; the others are dropped. */
  lemma EveryClassedOfferingListed(items: seq<OfferingItem>)
    ensures EntryTotal(Values(Grouped(items))) == |Keyed(items, GroupKey)|
  {
    var o := Order(items, GroupKey);
    GroupedIsGrouping(items);
    assert Values(Grouped(items)) == GroupsFor(items, o);
    EntryTotalOfGroups(items, o);
    GroupsCoverKeyed(items, GroupKey);
  }

  // ---------------------------------------------------------------------------
  // Sorting by label

  /** `localeCompare` as an abstract order on labels: total and transitive. */
  ghost predicate TotalPreorder(le: (string, string) -> bool) {
    && (forall a, b :: le(a, b) || le(b, a))
    && (forall a, b, c :: le(a, b) && le(b, c) ==> le(a, c))
  }

  ghost predicate Sorted(gs: seq<Group>, le: (string, string) -> bool) {
    forall i, j :: 0 <= i < j < |gs| ==> le(gs[i].classLabel, gs[j].classLabel)
  }

  /** Two labels the order cannot tell apart. */
  predicate Tied(le: (string, string) -> bool, a: string, b: string) {
    le(a, b) && le(b, a)
  }

  /** The groups whose label is tied with `target`, in sequence order. */
  function TiedWith(gs: seq<Group>, le: (string, string) -> bool, target: string): seq<Group> {
    if gs == [] then []
    else TiedWith(gs[..|gs| - 1], le, target) + (if Tied(le, gs[|gs| - 1].classLabel, target) then [gs[|gs| - 1]] else [])
  }

  /** Insert `g` into sorted `gs` after every group whose label is not above its own. */
  function Insert(gs: seq<Group>, g: Group, le: (string, string) -> bool): seq<Group> {
    if gs == [] then [g]
    else
      var last := gs[|gs| - 1];
      if le(last.classLabel, g.classLabel) then gs + [g]
      else Insert(gs[..|gs| - 1], g, le) + [last]
  }

  /** `Array.prototype.sort` with the label comparator: a stable sort, here an insertion sort. */
  function SortByLabel(gs: seq<Group>, le: (string, string) -> bool): seq<Group> {
    if gs == [] then []
    else Insert(SortByLabel(gs[..|gs| - 1], le), gs[|gs| - 1], le)
  }

  lemma {:induction false} InsertPermutes(gs: seq<Group>, g: Group, le: (string, string) -> bool)
    ensures multiset(Insert(gs, g, le)) == multiset(gs) + multiset{g}
    decreases |gs|
  {
    if gs != [] {
      var init := gs[..|gs| - 1];
      assert gs == init + [gs[|gs| - 1]];
      InsertPermutes(init, g, le);
    }
  }

  /** Sorting neither loses nor duplicates a group. */
  lemma {:induction false} SortPermutes(gs: seq<Group>, le: (string, string) -> bool)
    ensures multiset(SortByLabel(gs, le)) == multiset(gs)
    decreases |gs|
  {
    if gs != [] {
      var init := gs[..|gs| - 1];
      assert gs == init + [gs[|gs| - 1]];
      SortPermutes(init, le);
      InsertPermutes(SortByLabel(init, le), gs[|gs| - 1], le);
    }
  }

  lemma {:induction false} InsertSorted(gs: seq<Group>, g: Group, le: (string, string) -> bool)
    requires TotalPreorder(le) && Sorted(gs, le)
    ensures Sorted(Insert(gs, g, le), le)
    decreases |gs|
  {
    if gs != [] {
      var last := gs[|gs| - 1];
      var init := gs[..|gs| - 1];
      if le(last.classLabel, g.classLabel) {
        var r := gs + [g];
        forall i, j | 0 <= i < j < |r|
          ensures le(r[i].classLabel, r[j].classLabel)
        {
          if j == |gs| && i < |gs| - 1 {
            assert le(gs[i].classLabel, last.classLabel);
          }
        }
      } else {
        assert le(g.classLabel, last.classLabel);
        InsertSorted(init, g, le);
        InsertPermutes(init, g, le);
        var front := Insert(init, g, le);
        var r := front + [last];
        forall i | 0 <= i < |front|
          ensures le(front[i].classLabel, last.classLabel)
        {
          assert front[i] in multiset(front);
          assert front[i] in multiset(init) || front[i] == g;
          if front[i] != g {
            var k :| 0 <= k < |init| && init[k] == front[i];
            assert gs[k] == init[k];
          }
        }
        assert Sorted(r, le);
      }
    }
  }

  lemma {:induction false} SortSorted(gs: seq<Group>, le: (string, string) -> bool)
    requires TotalPreorder(le)
    ensures Sorted(SortByLabel(gs, le), le)
    decreases |gs|
  {
    if gs != [] {
      SortSorted(gs[..|gs| - 1], le);
      InsertSorted(SortByLabel(gs[..|gs| - 1], le), gs[|gs| - 1], le);
    }
  }

  lemma TiedWithSnoc(gs: seq<Group>, g: Group, le: (string, string) -> bool, target: string)
    ensures TiedWith(gs + [g], le, target) == TiedWith(gs, le, target) + (if Tied(le, g.classLabel, target) then [g] else [])
  {
    LastOf(gs, g);
  }

  /** Insertion puts `g` after every group it is tied with. */
  lemma {:induction false} InsertStable(gs: seq<Group>, g: Group, le: (string, string) -> bool, target: string)
    requires TotalPreorder(le)
    ensures TiedWith(Insert(gs, g, le), le, target) == TiedWith(gs, le, target) + (if Tied(le, g.classLabel, target) then [g] else [])
    decreases |gs|
  {
    if gs == [] {
      TiedWithSnoc([], g, le, target);
    } else {
      var last := gs[|gs| - 1];
      var init := gs[..|gs| - 1];
      if le(last.classLabel, g.classLabel) {
        TiedWithSnoc(gs, g, le, target);
      } else {
        InsertStable(init, g, le, target);
        TiedWithSnoc(Insert(init, g, le), last, le, target);
        TiedWithSnoc(init, last, le, target);
        assert gs == init + [last];
      }
    }
  }

  /** Groups with tied labels keep their relative order. */
  lemma {:induction false} SortStable(gs: seq<Group>, le: (string, string) -> bool, target: string)
    requires TotalPreorder(le)
    ensures TiedWith(SortByLabel(gs, le), le, target) == TiedWith(gs, le, target)
    decreases |gs|
  {
    if gs != [] {
      var init := gs[..|gs| - 1];
      SortStable(init, le, target);
      SortStableStep(gs, le, target);
    }
  }

  /** Sorting one more group keeps tied groups in order if sorting the others did. */
  lemma SortStableStep(gs: seq<Group>, le: (string, string) -> bool, target: string)
    requires TotalPreorder(le) && gs != []
    requires TiedWith(SortByLabel(gs[..|gs| - 1], le), le, target) == TiedWith(gs[..|gs| - 1], le, target)
    ensures TiedWith(SortByLabel(gs, le), le, target) == TiedWith(gs, le, target)
  {
    var init := gs[..|gs| - 1];
    var g := gs[|gs| - 1];
    InsertStable(SortByLabel(init, le), g, le, target);
    TiedWithSnoc(init, g, le, target);
    assert gs == init + [g];
  }

  /** `classSubjectRows`. */
  function ClassSubjectRows(items: seq<OfferingItem>, le: (string, string) -> bool): seq<Group> {
    SortByLabel(Values(Grouped(items)), le)
  }

  /**
    The rows are the class groups, sorted by target; nothing is lost or
    duplicated, and classes whose labels tie stay in first-seen order.
   */
  lemma ClassSubjectRowsCorrect(items: seq<OfferingItem>, le: (string, string) -> bool, target: string)
    requires TotalPreorder(le)
    ensures var groups := GroupsFor(items, Order(items, GroupKey));
      var rows := ClassSubjectRows(items, le);
      && Sorted(rows, le)
      && multiset(rows) == multiset(groups)
      && TiedWith(rows, le, target) == TiedWith(groups, le, target)
  {
    GroupedIsGrouping(items);
    assert Values(Grouped(items)) == GroupsFor(items, Order(items, GroupKey));
    SortSorted(Values(Grouped(items)), le);
    SortPermutes(Values(Grouped(items)), le);
    SortStable(Values(Grouped(items)), le, target);
  }
}

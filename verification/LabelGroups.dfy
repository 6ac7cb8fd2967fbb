/** Label groups flattened twice: by recursion with a shared set of groups seen (policy_resolver.py,
    build_label_group_to_labels) and by a worklist (policy_objects.py, label_group_values). Sub-groups may form
    a cycle. */
module LabelGroups {
  import opened Walks
  import opened Sorting

  /** The hrefs of its member labels and of its sub-groups. */
  datatype Group = Group(href: string, key: string, labels: seq<string>, subGroups: seq<string>)

  type Groups = map<string, Group>

  ghost predicate ByHref(groups: Groups) {
    forall h :: h in groups ==> groups[h].href == h
  }

  // ---- What a group stands for -----------------------------------------------------------------------------------

  /** From a group to its sub-groups. */
  ghost function Nesting(groups: Groups): set<(string, string)> {
    set h, s | h in groups && s in groups[h].subGroups :: (h, s)
  }

  ghost predicate Reaches(groups: Groups, root: string, h: string) {
    exists k: nat :: Steps(Nesting(groups), k, root, h)
  }

  /** The labels of every group reached from the root. */
  ghost function Members(groups: Groups, root: string): set<string> {
    set h, l | h in groups && l in groups[h].labels && Reaches(groups, root, h) :: l
  }

  ghost function LabelsIn(groups: Groups, hrefs: set<string>): set<string> {
    set h, l | h in hrefs && h in groups && l in groups[h].labels :: l
  }

  // ---- By recursion ----------------------------------------------------------------------------------------------

  class Seen {
    var hrefs: set<string>

    constructor ()
      ensures hrefs == {}
    {
      hrefs := {};
    }
  }

  /** Every group seen since `before` has its sub-groups seen, and is reached from href. */
  ghost predicate Explored(groups: Groups, href: string, before: set<string>, after: set<string>, but: set<string>) {
    && before <= after
    && (forall h :: h in after && h !in before ==> Reaches(groups, href, h))
    && (forall h, s :: h in after && h !in before && h !in but && (h, s) in Nesting(groups) ==> s in after)
  }

  lemma ReachesSelf(groups: Groups, href: string)
    ensures Reaches(groups, href, href)
  {
    WalkZero(Nesting(groups), href);
    assert Steps(Nesting(groups), 0, href, href);
  }

  lemma ReachesOver(groups: Groups, href: string, sub: string, h: string)
    requires (href, sub) in Nesting(groups) && Reaches(groups, sub, h)
    ensures Reaches(groups, href, h)
  {
    var k: nat :| Steps(Nesting(groups), k, sub, h);
    ConsSteps(Nesting(groups), href, sub, h, k);
  }

  /** The labels and the groups seen, after one more sub-group. */
  lemma ExploredMore(groups: Groups, href: string, sub: string, before: set<string>, mid: set<string>,
                     after: set<string>)
    requires Explored(groups, href, before, mid, {href}) && Explored(groups, sub, mid, after, {})
    requires (href, sub) in Nesting(groups)
    ensures Explored(groups, href, before, after, {href})
  {
    hide Reaches, Nesting;
    forall h | h in after && h !in before
      ensures Reaches(groups, href, h)
    {
      if h !in mid { ReachesOver(groups, href, sub, h); }
    }
  }

  lemma LabelsMore(groups: Groups, a: set<string>, b: set<string>)
    ensures LabelsIn(groups, a + b) == LabelsIn(groups, a) + LabelsIn(groups, b)
  {
  }

  method Expand(groups: Groups, href: string, seen: Seen) returns (labels: seq<string>)
    modifies seen
    ensures href in seen.hrefs && Explored(groups, href, old(seen.hrefs), seen.hrefs, {})
    ensures Distinct(labels) && forall l :: l in labels <==> l in LabelsIn(groups, seen.hrefs - old(seen.hrefs))
    decreases groups.Keys - seen.hrefs
  {
    hide Reaches, Nesting, LabelsIn, Distinct;
    if href in seen.hrefs {
      NothingNew(groups, href, seen.hrefs);
      return [];
    }
    ghost var before := seen.hrefs;
    seen.hrefs := seen.hrefs + {href};
    if href !in groups {
      LeafExplored(groups, href, before);
      return [];
    }
    var subs := groups[href].subGroups;
    labels := groups[href].labels;
    OwnExplored(groups, href, before);
    for i := 0 to |subs|
      invariant href in seen.hrefs && Explored(groups, href, before, seen.hrefs, {href})
      invariant forall k :: 0 <= k < i ==> subs[k] in seen.hrefs
      invariant forall l :: l in labels <==> l in LabelsIn(groups, seen.hrefs - before)
    {
      ghost var mid := seen.hrefs;
      SubNested(groups, href, i);
      var more := Expand(groups, subs[i], seen);
      labels := labels + more;
      ExploredMore(groups, href, subs[i], before, mid, seen.hrefs);
      LabelsMore(groups, mid - before, seen.hrefs - mid);
      assert (mid - before) + (seen.hrefs - mid) == seen.hrefs - before;
    }
    WholeExplored(groups, href, before, seen.hrefs);
    labels := Dedup(labels);
  }

  lemma SubNested(groups: Groups, href: string, i: nat)
    requires href in groups && i < |groups[href].subGroups|
    ensures (href, groups[href].subGroups[i]) in Nesting(groups)
  {
  }

  lemma NothingNew(groups: Groups, href: string, seen: set<string>)
    ensures Explored(groups, href, seen, seen, {}) && LabelsIn(groups, seen - seen) == {}
    ensures Distinct<string>([])
  {
  }

  lemma OwnExplored(groups: Groups, href: string, before: set<string>)
    requires href !in before && href in groups
    ensures Explored(groups, href, before, before + {href}, {href})
    ensures forall l :: l in groups[href].labels <==> l in LabelsIn(groups, (before + {href}) - before)
  {
    ReachesSelf(groups, href);
  }

  lemma WholeExplored(groups: Groups, href: string, before: set<string>, after: set<string>)
    requires Explored(groups, href, before, after, {href}) && href in groups
    requires forall k :: 0 <= k < |groups[href].subGroups| ==> groups[href].subGroups[k] in after
    ensures Explored(groups, href, before, after, {})
  {
    hide Reaches;
  }

  lemma LeafExplored(groups: Groups, href: string, before: set<string>)
    requires href !in before && href !in groups
    ensures Explored(groups, href, before, before + {href}, {})
    ensures LabelsIn(groups, (before + {href}) - before) == {} && Distinct<string>([])
  {
    ReachesSelf(groups, href);
  }

  /** Everything reached from a set that contains the root and is closed under sub-groups. */
  lemma {:induction false} ReachedInside(groups: Groups, all: set<string>, a: string, k: nat, h: string)
    requires a in all && (forall x, s :: x in all && (x, s) in Nesting(groups) ==> s in all)
    requires Steps(Nesting(groups), k, a, h)
    ensures h in all
    decreases k
  {
    if k == 0 {
      var w :| WalkOf(Nesting(groups), w, a, h, 0);
    } else {
      var b := SplitSteps(Nesting(groups), a, h, k);
      ReachedInside(groups, all, b, k - 1, h);
    }
  }

  lemma SeenIsReached(groups: Groups, root: string, all: set<string>)
    requires root in all && Explored(groups, root, {}, all, {})
    ensures forall h :: h in all <==> Reaches(groups, root, h)
    ensures LabelsIn(groups, all) == Members(groups, root)
  {
    forall h
      ensures h in all <==> Reaches(groups, root, h)
    {
      if Reaches(groups, root, h) {
        var k: nat :| Steps(Nesting(groups), k, root, h);
        ReachedInside(groups, all, root, k, h);
      }
    }
    hide Reaches;
  }

  /** {h: expand(h, set()) for h in by_href} */
  method BuildLabelGroupToLabels(groups: Groups) returns (r: map<string, seq<string>>)
    ensures r.Keys == groups.Keys
    ensures forall h :: h in r ==> Distinct(r[h]) && forall l :: l in r[h] <==> l in Members(groups, h)
  {
    hide Members, Distinct;
    r := map[];
    var rest := groups.Keys;
    while rest != {}
      invariant rest <= groups.Keys && r.Keys == groups.Keys - rest
      invariant forall h :: h in r ==> Distinct(r[h]) && forall l :: l in r[h] <==> l in Members(groups, h)
      decreases rest
    {
      var h :| h in rest;
      var seen := new Seen();
      var labels := Expand(groups, h, seen);
      SeenIsReached(groups, h, seen.hrefs);
      assert seen.hrefs - {} == seen.hrefs;
      r := r[h := labels];
      rest := rest - {h};
    }
  }

  // ---- By a worklist ---------------------------------------------------------------------------------------------

  /** The values of these labels that are of the key. */
  ghost function ValuesOf(labels: map<string, (string, string)>, key: string, refs: set<string>): set<string> {
    set l | l in refs && l in labels && labels[l].0 == key :: labels[l].1
  }

  /** What is seen was explored, or waits in the list. */
  ghost predicate Waiting(groups: Groups, root: string, seen: set<string>, todo: seq<Group>) {
    && (forall h :: h in seen ==> h in groups && Reaches(groups, root, h))
    && (forall g :: g in todo ==>
        g.href in seen || (g.href in groups && groups[g.href] == g && Reaches(groups, root, g.href)))
    && (forall h, s :: h in seen && (h, s) in Nesting(groups) && s in groups ==> s in seen || Queued(todo, s))
    && (root in seen || (|todo| == 1 && todo[0].href == root))
  }

  ghost predicate Queued(todo: seq<Group>, h: string) {
    exists g :: g in todo && g.href == h
  }

  method SubGroups(groups: Groups, refs: seq<string>) returns (r: seq<Group>)
    ensures forall g :: g in r <==> exists s :: s in refs && s in groups && groups[s] == g
  {
    r := [];
    for i := 0 to |refs|
      invariant forall g :: g in r <==> exists s :: s in refs[..i] && s in groups && groups[s] == g
    {
      assert refs[..i + 1] == refs[..i] + [refs[i]];
      if refs[i] in groups { r := r + [groups[refs[i]]]; }
    }
    assert refs[..|refs|] == refs;
  }

  /** The labels of a key among these references. */
  method KeyValues(labels: map<string, (string, string)>, key: string, refs: seq<string>) returns (values: set<string>)
    ensures values == ValuesOf(labels, key, set l | l in refs)
  {
    values := {};
    for i := 0 to |refs|
      invariant values == ValuesOf(labels, key, set l | l in refs[..i])
    {
      assert refs[..i + 1] == refs[..i] + [refs[i]];
      if refs[i] in labels && labels[refs[i]].0 == key { values := values + {labels[refs[i]].1}; }
    }
    assert refs[..|refs|] == refs;
  }

  lemma ValuesMore(labels: map<string, (string, string)>, key: string, a: set<string>, b: set<string>)
    ensures ValuesOf(labels, key, a + b) == ValuesOf(labels, key, a) + ValuesOf(labels, key, b)
  {
  }

  /** The last of the list was seen already. */
  lemma Passed(groups: Groups, root: string, seen: set<string>, todo: seq<Group>)
    requires Waiting(groups, root, seen, todo) && todo != [] && todo[|todo| - 1].href in seen
    ensures Waiting(groups, root, seen, todo[..|todo| - 1])
  {
    var rest, last := todo[..|todo| - 1], todo[|todo| - 1];
    assert todo == rest + [last];
    hide Reaches, Nesting;
    forall h | Queued(todo, h)
      ensures h in seen || Queued(rest, h)
    {
      var g :| g in todo && g.href == h;
      if g != last { assert g in rest; }
    }
  }

  /** It was not: its sub-groups join the list. */
  lemma Popped(listed: Groups, group: Group, seen: set<string>, todo: seq<Group>, subs: seq<Group>)
    requires ByHref(listed) && Waiting(listed[group.href := group], group.href, seen, todo)
    requires todo != [] && todo[|todo| - 1].href !in seen
    requires var g := todo[|todo| - 1];
             forall x :: x in subs <==> exists s :: s in g.subGroups && s in listed && listed[s] == x
    ensures Waiting(listed[group.href := group], group.href, seen + {todo[|todo| - 1].href}, todo[..|todo| - 1] + subs)
  {
    var groups, root := listed[group.href := group], group.href;
    var rest, last := todo[..|todo| - 1], todo[|todo| - 1];
    assert todo == rest + [last];
    var h := last.href;
    var all := rest + subs;
    forall x | x in subs
      ensures x.href in seen + {h} || (x.href in groups && groups[x.href] == x && Reaches(groups, root, x.href))
    {
      var s :| s in last.subGroups && s in listed && listed[s] == x;
      ReachesNext(groups, root, h, s);
    }
    forall x | Queued(todo, x)
      ensures x in seen + {h} || Queued(all, x)
    {
      var g :| g in todo && g.href == x;
      if g != last { assert g in rest && g in all; }
    }
    forall s | s in groups && (h, s) in Nesting(groups)
      ensures s in seen + {h} || Queued(all, s)
    {
      if s != root { assert listed[s] in subs && listed[s] in all; }
    }
    hide Reaches, Nesting;
  }

  lemma {:induction false} ReachesNext(groups: Groups, root: string, h: string, s: string)
    requires Reaches(groups, root, h) && (h, s) in Nesting(groups)
    ensures Reaches(groups, root, s)
  {
    var k: nat :| Steps(Nesting(groups), k, root, h);
    OneMore(groups, root, h, s, k);
    assert Steps(Nesting(groups), k + 1, root, s);
  }

  lemma {:induction false} OneMore(groups: Groups, a: string, h: string, s: string, k: nat)
    requires Steps(Nesting(groups), k, a, h) && (h, s) in Nesting(groups)
    ensures Steps(Nesting(groups), k + 1, a, s)
    decreases k
  {
    if k == 0 {
      var w :| WalkOf(Nesting(groups), w, a, h, 0);
      WalkZero(Nesting(groups), s);
      ConsSteps(Nesting(groups), a, s, s, 0);
    } else {
      var b := SplitSteps(Nesting(groups), a, h, k);
      OneMore(groups, b, h, s, k - 1);
      ConsSteps(Nesting(groups), a, b, s, k);
    }
  }

  lemma WorkDone(groups: Groups, root: string, seen: set<string>)
    requires Waiting(groups, root, seen, []) && root in groups
    ensures LabelsIn(groups, seen) == Members(groups, root)
  {
    var all := seen + (set h, s | h in seen && h in groups && s in groups[h].subGroups :: s);
    assert forall h: string :: !Queued([], h);
    forall x, s | x in all && (x, s) in Nesting(groups)
      ensures s in all
    {
      assert x in groups;
    }
    forall h | h in groups && Reaches(groups, root, h)
      ensures h in seen
    {
      var k: nat :| Steps(Nesting(groups), k, root, h);
      forall x | x in seen && x in groups && h in groups[x].subGroups
        ensures h in seen
      {
        assert (x, h) in Nesting(groups);
      }
      ReachedInside(groups, all, root, k, h);
    }
  }

  /** What both traversals promise a group's members are. */
  ghost function GroupValues(groups: Groups, labels: map<string, (string, string)>, root: string): set<string>
    requires root in groups
  {
    ValuesOf(labels, groups[root].key, Members(groups, root))
  }

  /** The group need not be listed, or be listed as it is: it stands for itself among the groups. */
  method LabelGroupValues(group: Group, groups: Groups, labels: map<string, (string, string)>)
    returns (values: seq<string>)
    requires ByHref(groups)
    ensures Increasing(NameLess, values)
    ensures forall v :: v in values <==> v in GroupValues(groups[group.href := group], labels, group.href)
  {
    ghost var all := groups[group.href := group];
    hide Waiting, Reaches, Nesting, LabelsIn, ValuesOf, Members, StrictTotal, Increasing;
    var seen: set<string>, found: set<string> := {}, {};
    var todo := [group];
    WorkStarts(all, labels, group);
    while todo != []
      invariant Waiting(all, group.href, seen, todo)
      invariant found == ValuesOf(labels, group.key, LabelsIn(all, seen))
      decreases all.Keys - seen, |todo|
    {
      var g := todo[|todo| - 1];
      if g.href in seen {
        Passed(all, group.href, seen, todo);
        todo := todo[..|todo| - 1];
        continue;
      }
      var more := KeyValues(labels, group.key, g.labels);
      var subs := SubGroups(groups, g.subGroups);
      NextListed(all, group.href, seen, todo);
      Popped(groups, group, seen, todo, subs);
      LabelsMore(all, seen, {g.href});
      LabelsOne(all, g);
      ValuesMore(labels, group.key, LabelsIn(all, seen), set l | l in g.labels);
      seen, found, todo := seen + {g.href}, found + more, todo[..|todo| - 1] + subs;
    }
    WorkDone(all, group.href, seen);
    NamesStrictTotal();
    values := SortSet(NameLess, found);
  }

  lemma WorkStarts(groups: Groups, labels: map<string, (string, string)>, group: Group)
    requires group.href in groups && groups[group.href] == group
    ensures Waiting(groups, group.href, {}, [group])
    ensures ValuesOf(labels, group.key, LabelsIn(groups, {})) == {}
  {
    ReachesSelf(groups, group.href);
    assert group in [group];
  }

  lemma LabelsOne(groups: Groups, g: Group)
    requires g.href in groups && groups[g.href] == g
    ensures LabelsIn(groups, {g.href}) == set l | l in g.labels
  {
  }

  lemma NextListed(groups: Groups, root: string, seen: set<string>, todo: seq<Group>)
    requires Waiting(groups, root, seen, todo) && todo != [] && todo[|todo| - 1].href !in seen
    ensures var g := todo[|todo| - 1]; g.href in groups && groups[g.href] == g
  {
    assert todo[|todo| - 1] in todo;
  }

  /** The two traversals agree: the worklist's values are the values, of the root's key, of the labels that recursion
      lists. */
  lemma TraversalsAgree(groups: Groups, labels: map<string, (string, string)>, root: string, flat: seq<string>,
                        values: seq<string>)
    requires root in groups
    requires forall l :: l in flat <==> l in Members(groups, root)                   // BuildLabelGroupToLabels
    requires forall v :: v in values <==>
               v in GroupValues(groups[root := groups[root]], labels, root)  // LabelGroupValues
    ensures forall v :: v in values <==> exists l :: l in flat && l in labels && labels[l] == (groups[root].key, v)
  {
    hide Members;
    assert groups[root := groups[root]] == groups;
    forall v
      ensures v in values <==> exists l :: l in flat && l in labels && labels[l] == (groups[root].key, v)
    {
      if v in values {
        var l :| l in Members(groups, root) && l in labels && labels[l].0 == groups[root].key && labels[l].1 == v;
        assert labels[l] == (groups[root].key, v);
      }
    }
  }
}

/** `map_controls_by_tags`: collating the controls of a profile around the first NIST
    800-53 identifier each carries. The result is an insertion-ordered dictionary,
    modelled as an association list whose keys are distinct and appear in the order
    the controls first mention them; any control without a usable key makes the
    whole grouping fail. */
module Grouping {
  import opened Wrappers
  import opened Profile

  /** The tag namespace read, whatever tag the caller asks for. */
  const Nist: string := "nist"

  /** The grouping key of a control: the first entry of `tags["nist"]`. None stands for
      the exceptions the look-up raises: `tags` missing, no "nist" entry, or an empty
      list. */
  function NistKey(c: Control): Option<string>
  {
    match c.tags
    case None => None
    case Some(t) => if Nist in t && |t[Nist]| > 0 then Some(t[Nist][0]) else None
  }

  predicate Keyed(c: Control) {
    NistKey(c).Some?
  }

  predicate AllKeyed(cs: seq<Control>) {
    forall i :: 0 <= i < |cs| ==> Keyed(cs[i])
  }

  /** An insertion-ordered dictionary from NIST identifier to the controls under it. */
  type Groups = seq<(string, seq<Control>)>

  /** The keys of the dictionary, in insertion order. */
  function GroupKeys(g: Groups): seq<string> {
    seq(|g|, i requires 0 <= i < |g| => g[i].0)
  }

  /** The dictionary invariant: no key occurs twice. */
  ghost predicate DistinctKeys(g: Groups) {
    forall i, j :: 0 <= i < j < |g| ==> g[i].0 != g[j].0
  }

  /** All controls of all groups, group by group. */
  function Flatten(g: Groups): seq<Control> {
    if g == [] then [] else g[0].1 + Flatten(g[1..])
  }

  /** The sum of the group sizes. */
  function TotalSize(g: Groups): nat {
    if g == [] then 0 else |g[0].1| + TotalSize(g[1..])
  }

  /** One step of the loop: `tag_map[k]` is created empty at the end of the dictionary
      when it is missing, and `c` is appended to it; every other entry is unchanged. */
  function Insert(g: Groups, k: string, c: Control): (r: Groups)
    requires DistinctKeys(g)
    ensures DistinctKeys(r)
    ensures k !in GroupKeys(g) ==> r == g + [(k, [c])]
    ensures k in GroupKeys(g) ==> |r| == |g|
    ensures k in GroupKeys(g) ==>
      forall j :: 0 <= j < |g| ==> r[j] == (if g[j].0 == k then (k, g[j].1 + [c]) else g[j])
  {
    if g == [] then [(k, [c])]
    else if g[0].0 == k then
      assert GroupKeys(g)[0] == k;
      [(k, g[0].1 + [c])] + g[1..]
    else
      assert GroupKeys(g) == [g[0].0] + GroupKeys(g[1..]);
      [g[0]] + Insert(g[1..], k, c)
  }

  /** The loop over the controls, processed in input order. None when some control has
      no usable key (the loop raises there). */
  function Group(cs: seq<Control>): (r: Option<Groups>)
    ensures r.Some? <==> AllKeyed(cs)
    ensures r.Some? ==> DistinctKeys(r.value)
    decreases |cs|
  {
    if cs == [] then Some([])
    else
      var c := cs[|cs| - 1];
      match Group(cs[..|cs| - 1])
      case None => None
      case Some(g) =>
        match NistKey(c)
        case None => None
        case Some(k) => Some(Insert(g, k, c))
  }

  // ----- The reference description of a grouping -----

  /** The controls of `cs` whose key is `k`, in input order. */
  function Members(cs: seq<Control>, k: string): (r: seq<Control>)
    ensures |r| <= |cs|
    ensures forall i :: 0 <= i < |r| ==> NistKey(r[i]) == Some(k) && r[i] in cs
  {
    if cs == [] then []
    else (if NistKey(cs[0]) == Some(k) then [cs[0]] else []) + Members(cs[1..], k)
  }

  /** The position of the first control keyed `k`, or |cs| when there is none. */
  function FirstIndex(cs: seq<Control>, k: string): (r: nat)
    ensures r <= |cs|
    ensures r < |cs| ==> NistKey(cs[r]) == Some(k)
    ensures forall i :: 0 <= i < r ==> NistKey(cs[i]) != Some(k)
  {
    if cs == [] then 0
    else if NistKey(cs[0]) == Some(k) then 0
    else 1 + FirstIndex(cs[1..], k)
  }

  /** Keys listed in order of their first appearance among the controls. */
  ghost predicate FirstAppearanceOrder(ks: seq<string>, cs: seq<Control>) {
    forall i, j :: 0 <= i < j < |ks| ==> FirstIndex(cs, ks[i]) < FirstIndex(cs, ks[j])
  }

  /** `g` is the grouping of `cs`: every control has a key, and that key has a group;
      each group is exactly the controls with its key, in input order, and is non-empty;
      keys are distinct and ordered by first appearance. */
  ghost predicate IsGroupingOf(g: Groups, cs: seq<Control>) {
    && AllKeyed(cs)
    && DistinctKeys(g)
    && (forall i :: 0 <= i < |cs| ==> NistKey(cs[i]).value in GroupKeys(g))
    && (forall j :: 0 <= j < |g| ==> g[j].1 != [] && g[j].1 == Members(cs, g[j].0))
    && FirstAppearanceOrder(GroupKeys(g), cs)
  }

  // ----- Facts about the reference description -----

  lemma {:induction false} MembersSnoc(cs: seq<Control>, c: Control, k: string)
    ensures Members(cs + [c], k) == Members(cs, k) + (if NistKey(c) == Some(k) then [c] else [])
    decreases |cs|
  {
    if cs == [] {
      assert [c][1..] == [];
    } else {
      assert (cs + [c])[0] == cs[0];
      assert (cs + [c])[1..] == cs[1..] + [c];
      MembersSnoc(cs[1..], c, k);
    }
  }

  lemma {:induction false} MembersNonEmpty(cs: seq<Control>, k: string)
    ensures Members(cs, k) != [] <==> FirstIndex(cs, k) < |cs|
    decreases |cs|
  {
    if cs != [] {
      MembersNonEmpty(cs[1..], k);
    }
  }

  lemma {:induction false} MembersContains(cs: seq<Control>, i: nat)
    requires i < |cs| && Keyed(cs[i])
    ensures cs[i] in Members(cs, NistKey(cs[i]).value)
    decreases i
  {
    if i > 0 {
      MembersContains(cs[1..], i - 1);
    }
  }

  lemma FirstIndexSnoc(cs: seq<Control>, c: Control, k: string)
    ensures FirstIndex(cs, k) < |cs| ==> FirstIndex(cs + [c], k) == FirstIndex(cs, k)
    ensures FirstIndex(cs, k) == |cs| && NistKey(c) == Some(k) ==> FirstIndex(cs + [c], k) == |cs|
  {
    var s := cs + [c];
    assert forall i :: 0 <= i < |cs| ==> s[i] == cs[i];
    assert s[|cs|] == c;
  }

  /** Appending a control keeps every existing key's first index, and those keys all
      occur among the controls already seen. */
  lemma OrderKept(g: Groups, cs: seq<Control>, c: Control)
    requires IsGroupingOf(g, cs)
    ensures forall j :: 0 <= j < |g| ==> FirstIndex(cs, g[j].0) < |cs|
    ensures forall j :: 0 <= j < |g| ==> FirstIndex(cs + [c], g[j].0) == FirstIndex(cs, g[j].0)
    ensures FirstAppearanceOrder(GroupKeys(g), cs + [c])
  {
    forall j | 0 <= j < |g|
      ensures FirstIndex(cs, g[j].0) < |cs|
      ensures FirstIndex(cs + [c], g[j].0) == FirstIndex(cs, g[j].0)
    {
      MembersNonEmpty(cs, g[j].0);
      FirstIndexSnoc(cs, c, g[j].0);
    }
  }

  /** Appending a control extends the members of its own key only. */
  lemma MembersGrow(g: Groups, cs: seq<Control>, c: Control)
    requires IsGroupingOf(g, cs)
    ensures forall j :: 0 <= j < |g| ==>
      Members(cs + [c], g[j].0) == g[j].1 + (if NistKey(c) == Some(g[j].0) then [c] else [])
  {
    forall j | 0 <= j < |g|
      ensures Members(cs + [c], g[j].0) == g[j].1 + (if NistKey(c) == Some(g[j].0) then [c] else [])
    {
      MembersSnoc(cs, c, g[j].0);
    }
  }

  /** Every control of the longer list is keyed and its key is among `ks`. */
  lemma Covered(g: Groups, cs: seq<Control>, c: Control, ks: seq<string>)
    requires IsGroupingOf(g, cs)
    requires Keyed(c) && NistKey(c).value in ks
    requires forall x :: x in GroupKeys(g) ==> x in ks
    ensures AllKeyed(cs + [c])
    ensures forall i :: 0 <= i < |cs + [c]| ==> NistKey((cs + [c])[i]).value in ks
  {
    var cs' := cs + [c];
    forall i | 0 <= i < |cs'| ensures Keyed(cs'[i]) && NistKey(cs'[i]).value in ks {
      if i < |cs| {
        assert cs'[i] == cs[i];
      }
    }
  }

  lemma InsertExistingKeys(g: Groups, k: string, c: Control)
    requires DistinctKeys(g) && k in GroupKeys(g)
    ensures GroupKeys(Insert(g, k, c)) == GroupKeys(g)
  {
  }

  lemma InsertNewKeys(g: Groups, k: string, c: Control)
    requires DistinctKeys(g) && k !in GroupKeys(g)
    ensures GroupKeys(Insert(g, k, c)) == GroupKeys(g) + [k]
  {
  }

  /** A key without a group does not occur among the controls seen so far. */
  lemma AbsentKey(g: Groups, cs: seq<Control>, k: string)
    requires IsGroupingOf(g, cs)
    requires k !in GroupKeys(g)
    ensures FirstIndex(cs, k) == |cs|
    ensures Members(cs, k) == []
  {
    forall i | 0 <= i < |cs| ensures NistKey(cs[i]) != Some(k) {
      assert NistKey(cs[i]).value in GroupKeys(g);
    }
    MembersNonEmpty(cs, k);
  }

  /** A loop step on a key that already has a group appends to that group in place. */
  lemma GroupStepExisting(g: Groups, cs: seq<Control>, c: Control)
    requires IsGroupingOf(g, cs)
    requires Keyed(c) && NistKey(c).value in GroupKeys(g)
    ensures AllKeyed(cs + [c])
    ensures DistinctKeys(Insert(g, NistKey(c).value, c))
    ensures forall i :: 0 <= i < |cs + [c]| ==>
      NistKey((cs + [c])[i]).value in GroupKeys(Insert(g, NistKey(c).value, c))
    ensures forall j :: 0 <= j < |Insert(g, NistKey(c).value, c)| ==>
      && Insert(g, NistKey(c).value, c)[j].1 != []
      && Insert(g, NistKey(c).value, c)[j].1 == Members(cs + [c], Insert(g, NistKey(c).value, c)[j].0)
    ensures FirstAppearanceOrder(GroupKeys(Insert(g, NistKey(c).value, c)), cs + [c])
  {
    OrderKept(g, cs, c);
    MembersGrow(g, cs, c);
    InsertExistingKeys(g, NistKey(c).value, c);
    Covered(g, cs, c, GroupKeys(g));
  }

  /** Under a new key, the appended one-control group and every old group are exactly
      the members of their key among the longer list. */
  lemma NewGroupMembers(g: Groups, cs: seq<Control>, c: Control)
    requires IsGroupingOf(g, cs)
    requires Keyed(c) && NistKey(c).value !in GroupKeys(g)
    ensures var r := g + [(NistKey(c).value, [c])];
      forall j :: 0 <= j < |r| ==> r[j].1 != [] && r[j].1 == Members(cs + [c], r[j].0)
  {
    var k := NistKey(c).value;
    MembersGrow(g, cs, c);
    AbsentKey(g, cs, k);
    MembersSnoc(cs, c, k);
    forall j | 0 <= j < |g| ensures NistKey(c) != Some(g[j].0) {
      assert GroupKeys(g)[j] == g[j].0;
    }
  }

  /** Under a new key, the appended key comes after every old key in first-appearance
      order. */
  lemma NewGroupOrder(g: Groups, cs: seq<Control>, c: Control)
    requires IsGroupingOf(g, cs)
    requires Keyed(c) && NistKey(c).value !in GroupKeys(g)
    ensures FirstAppearanceOrder(GroupKeys(g) + [NistKey(c).value], cs + [c])
  {
    var k := NistKey(c).value;
    OrderKept(g, cs, c);
    AbsentKey(g, cs, k);
    FirstIndexSnoc(cs, c, k);
    var ks := GroupKeys(g) + [k];
    forall i, j | 0 <= i < j < |ks| ensures FirstIndex(cs + [c], ks[i]) < FirstIndex(cs + [c], ks[j]) {
      assert ks[i] == g[i].0;
      if j < |g| {
        assert ks[j] == g[j].0;
      } else {
        assert ks[j] == k;
      }
    }
  }

  /** A loop step on a key without a group opens a new group at the end. */
  lemma GroupStepNew(g: Groups, cs: seq<Control>, c: Control)
    requires IsGroupingOf(g, cs)
    requires Keyed(c) && NistKey(c).value !in GroupKeys(g)
    ensures AllKeyed(cs + [c])
    ensures DistinctKeys(Insert(g, NistKey(c).value, c))
    ensures forall i :: 0 <= i < |cs + [c]| ==>
      NistKey((cs + [c])[i]).value in GroupKeys(Insert(g, NistKey(c).value, c))
    ensures forall j :: 0 <= j < |Insert(g, NistKey(c).value, c)| ==>
      && Insert(g, NistKey(c).value, c)[j].1 != []
      && Insert(g, NistKey(c).value, c)[j].1 == Members(cs + [c], Insert(g, NistKey(c).value, c)[j].0)
    ensures FirstAppearanceOrder(GroupKeys(Insert(g, NistKey(c).value, c)), cs + [c])
  {
    var k := NistKey(c).value;
    InsertNewKeys(g, k, c);
    NewGroupMembers(g, cs, c);
    NewGroupOrder(g, cs, c);
    Covered(g, cs, c, GroupKeys(g) + [k]);
  }

  /** Whenever the loop completes, its result is the grouping the reference describes. */
  lemma {:induction false} GroupIsGrouping(cs: seq<Control>)
    requires AllKeyed(cs)
    ensures Group(cs).Some? && IsGroupingOf(Group(cs).value, cs)
    decreases |cs|
  {
    if cs != [] {
      var prefix := cs[..|cs| - 1];
      var c := cs[|cs| - 1];
      assert prefix + [c] == cs;
      assert AllKeyed(prefix) by {
        forall i | 0 <= i < |prefix| ensures Keyed(prefix[i]) {
          assert prefix[i] == cs[i];
        }
      }
      GroupIsGrouping(prefix);
      if NistKey(c).value in GroupKeys(Group(prefix).value) {
        GroupStepExisting(Group(prefix).value, prefix, c);
      } else {
        GroupStepNew(Group(prefix).value, prefix, c);
      }
    }
  }

  // ----- The grouping as the mapper returns it -----

  /** `map_controls_by_tags(tag)`: the grouping when every control has a key, and the
      empty dictionary otherwise. `tag` is never read: the namespace is always "nist". */
  function MapControlsByTags(cs: seq<Control>, tag: string): (r: Groups)
    ensures AllKeyed(cs) ==> IsGroupingOf(r, cs)
    ensures !AllKeyed(cs) ==> r == []
  {
    if AllKeyed(cs) then GroupIsGrouping(cs); Group(cs).value else []
  }

  /** The result is the same whichever tag the caller names. */
  lemma TagIgnored(cs: seq<Control>, tag1: string, tag2: string)
    ensures MapControlsByTags(cs, tag1) == MapControlsByTags(cs, tag2)
  {
  }

  // ----- Consequences: a partition of the controls -----

  lemma {:induction false} InsertFlatten(g: Groups, k: string, c: Control)
    requires DistinctKeys(g)
    ensures multiset(Flatten(Insert(g, k, c))) == multiset(Flatten(g)) + multiset{c}
    decreases |g|
  {
    if g == [] {
    } else if g[0].0 == k {
      assert Insert(g, k, c) == [(k, g[0].1 + [c])] + g[1..];
      assert Flatten(Insert(g, k, c)) == g[0].1 + [c] + Flatten(g[1..]);
    } else {
      assert GroupKeys(g) == [g[0].0] + GroupKeys(g[1..]);
      assert Insert(g, k, c) == [g[0]] + Insert(g[1..], k, c);
      InsertFlatten(g[1..], k, c);
    }
  }

  lemma {:induction false} FlattenSize(g: Groups)
    ensures |Flatten(g)| == TotalSize(g)
    decreases |g|
  {
    if g != [] {
      FlattenSize(g[1..]);
    }
  }

  lemma {:induction false} GroupFlatten(cs: seq<Control>)
    requires AllKeyed(cs)
    ensures Group(cs).Some? && multiset(Flatten(Group(cs).value)) == multiset(cs)
    decreases |cs|
  {
    if cs != [] {
      var prefix := cs[..|cs| - 1];
      var c := cs[|cs| - 1];
      assert prefix + [c] == cs;
      assert AllKeyed(prefix) by {
        forall i | 0 <= i < |prefix| ensures Keyed(prefix[i]) {
          assert prefix[i] == cs[i];
        }
      }
      GroupFlatten(prefix);
      InsertFlatten(Group(prefix).value, NistKey(c).value, c);
      assert multiset(cs) == multiset(prefix) + multiset{c};
    }
  }

  /** When grouping succeeds it partitions the controls: taken together the groups hold
      every control exactly as often as the input does, so the group sizes sum to the
      number of controls. */
  lemma Partition(cs: seq<Control>, tag: string)
    requires AllKeyed(cs)
    ensures multiset(Flatten(MapControlsByTags(cs, tag))) == multiset(cs)
    ensures TotalSize(MapControlsByTags(cs, tag)) == |cs|
  {
    GroupFlatten(cs);
    var g := Group(cs).value;
    FlattenSize(g);
    assert MapControlsByTags(cs, tag) == g;
    assert |multiset(Flatten(g))| == |Flatten(g)|;
  }

  /** Each control lies in exactly the group keyed by the first entry of its "nist" tag
      list: it is a member of a group if and only if that group has its key, and keys
      are distinct. */
  lemma ControlInOneGroup(g: Groups, cs: seq<Control>)
    requires IsGroupingOf(g, cs)
    ensures forall i, j :: 0 <= i < |cs| && 0 <= j < |g| ==>
      (cs[i] in g[j].1 <==> g[j].0 == NistKey(cs[i]).value)
    ensures forall i :: 0 <= i < |cs| ==>
      exists j {:trigger g[j]} :: 0 <= j < |g| && g[j].0 == NistKey(cs[i]).value && cs[i] in g[j].1
  {
    forall i, j | 0 <= i < |cs| && 0 <= j < |g|
      ensures cs[i] in g[j].1 <==> g[j].0 == NistKey(cs[i]).value
    {
      if g[j].0 == NistKey(cs[i]).value {
        MembersContains(cs, i);
      }
    }
    forall i | 0 <= i < |cs|
      ensures exists j {:trigger g[j]} :: 0 <= j < |g| && g[j].0 == NistKey(cs[i]).value && cs[i] in g[j].1
    {
      var k := NistKey(cs[i]).value;
      assert k in GroupKeys(g);
      var j :| 0 <= j < |g| && GroupKeys(g)[j] == k;
      MembersContains(cs, i);
      assert cs[i] in g[j].1;
    }
  }

  // ----- The reference description determines the grouping -----

  /** Two non-empty key lists, each strictly ordered by first appearance and holding the
      same keys, start with the same key. */
  lemma SameHead(a: seq<string>, b: seq<string>, cs: seq<Control>)
    requires a != [] && b != []
    requires FirstAppearanceOrder(a, cs) && FirstAppearanceOrder(b, cs)
    requires forall x :: x in a <==> x in b
    ensures a[0] == b[0]
  {
    assert a[0] in a && b[0] in b;
    var i :| 0 <= i < |b| && b[i] == a[0];
    var j :| 0 <= j < |a| && a[j] == b[0];
    var fa, fb := FirstIndex(cs, a[0]), FirstIndex(cs, b[0]);
    assert i > 0 ==> fb < fa;
    assert j > 0 ==> fa < fb;
  }

  /** Removing a shared first key leaves the same keys on both sides. */
  lemma SameTailKeys(a: seq<string>, b: seq<string>, cs: seq<Control>)
    requires a != [] && b != [] && a[0] == b[0]
    requires FirstAppearanceOrder(a, cs) && FirstAppearanceOrder(b, cs)
    requires forall x :: x in a <==> x in b
    ensures forall x :: x in a[1..] <==> x in b[1..]
  {
    forall x ensures x in a[1..] <==> x in b[1..] {
      if x in a[1..] {
        var p :| 0 <= p < |a[1..]| && a[1..][p] == x;
        assert a[p + 1] == x && x != a[0];
        assert x in a && x in b;
        var q :| 0 <= q < |b| && b[q] == x;
        assert q > 0 && b[1..][q - 1] == x;
      }
      if x in b[1..] {
        var p :| 0 <= p < |b[1..]| && b[1..][p] == x;
        assert b[p + 1] == x && x != b[0];
        assert x in b && x in a;
        var q :| 0 <= q < |a| && a[q] == x;
        assert q > 0 && a[1..][q - 1] == x;
      }
    }
  }

  /** Two key lists, each strictly ordered by first appearance and holding the same keys,
      are equal. */
  lemma {:induction false} OrderedUnique(a: seq<string>, b: seq<string>, cs: seq<Control>)
    requires FirstAppearanceOrder(a, cs) && FirstAppearanceOrder(b, cs)
    requires forall x :: x in a <==> x in b
    ensures a == b
    decreases |a|
  {
    if a != [] {
      assert a[0] in a;
    }
    if b != [] {
      assert b[0] in b;
    }
    if a != [] {
      SameHead(a, b, cs);
      SameTailKeys(a, b, cs);
      OrderedUnique(a[1..], b[1..], cs);
      assert a == [a[0]] + a[1..] && b == [b[0]] + b[1..];
    }
  }

  /** At most one dictionary meets the reference description of a grouping. */
  lemma GroupingUnique(g1: Groups, g2: Groups, cs: seq<Control>)
    requires IsGroupingOf(g1, cs) && IsGroupingOf(g2, cs)
    ensures g1 == g2
  {
    forall x ensures x in GroupKeys(g1) <==> x in GroupKeys(g2) {
      KeyOccurs(g1, cs, x);
      KeyOccurs(g2, cs, x);
    }
    OrderedUnique(GroupKeys(g1), GroupKeys(g2), cs);
    assert |g1| == |g2|;
    forall j | 0 <= j < |g1| ensures g1[j] == g2[j] {
      assert GroupKeys(g1)[j] == GroupKeys(g2)[j];
    }
  }

  /** A key has a group exactly when some control carries it. */
  lemma KeyOccurs(g: Groups, cs: seq<Control>, x: string)
    requires IsGroupingOf(g, cs)
    ensures x in GroupKeys(g) <==> FirstIndex(cs, x) < |cs|
  {
    if x in GroupKeys(g) {
      var j :| 0 <= j < |g| && GroupKeys(g)[j] == x;
      MembersNonEmpty(cs, x);
    }
    if FirstIndex(cs, x) < |cs| {
      assert NistKey(cs[FirstIndex(cs, x)]).value in GroupKeys(g);
    }
  }

  /** The loop's result is characterised completely by the reference description: it
      succeeds with `g` exactly when `g` is the grouping of the controls. */
  lemma GroupCharacterised(cs: seq<Control>, g: Groups)
    ensures Group(cs) == Some(g) <==> IsGroupingOf(g, cs)
  {
    if Group(cs) == Some(g) {
      GroupIsGrouping(cs);
    }
    if IsGroupingOf(g, cs) {
      GroupIsGrouping(cs);
      GroupingUnique(Group(cs).value, g, cs);
    }
  }
}

/** views/FriendLinksView.tsx: the configured friend links grouped by category, and the group
    names in sorted order. */
module FriendLinks {
  import opened Wrappers
  import opened Seqs
  import opened Types

  const DefaultGroup: string := "其他资源"

  /** `link.category || "其他资源"`. */
  function GroupKey(l: FriendLink): (r: string)
    ensures r != ""
    ensures l.category.Some? && l.category.value != "" ==> r == l.category.value
  {
    if l.category.Some? && l.category.value != "" then l.category.value else DefaultGroup
  }

  /** `groupedLinks` as intended: the `forEach` that pushes each link onto its group, written
      as a function of the prefix handled so far, over a map that holds only the groups made
      (what `Object.create(null)` or a `Map` would give). The rest of the model uses this. */
  function Groups(links: seq<FriendLink>): map<string, seq<FriendLink>> {
    if |links| == 0 then map[]
    else
      var g := Groups(links[..|links| - 1]);
      var l := links[|links| - 1];
      var k := GroupKey(l);
      g[k := (if k in g then g[k] else []) + [l]]
  }

  /** The property names every plain object inherits from `Object.prototype`. */
  const InheritedNames: set<string> := {
    "constructor", "__proto__", "toString", "toLocaleString", "valueOf", "hasOwnProperty",
    "isPrototypeOf", "propertyIsEnumerable", "__defineGetter__", "__defineSetter__",
    "__lookupGetter__", "__lookupSetter__"}

  /** `groupedLinks` as written, on the object literal `{}`: `groups[cat]` also finds an
      inherited property. For an inherited name it is truthy, so no array is made, and the
      `push` that follows is not a function there and throws; `None` is that crash. */
  function GroupsAsWritten(links: seq<FriendLink>): Option<map<string, seq<FriendLink>>> {
    if |links| == 0 then Some(map[])
    else match GroupsAsWritten(links[..|links| - 1])
      case None => None
      case Some(g) =>
        var l := links[|links| - 1];
        var k := GroupKey(l);
        if k !in g && k in InheritedNames then None
        else Some(g[k := (if k in g then g[k] else []) + [l]])
  }

  predicate HasInheritedKey(links: seq<FriendLink>) {
    exists i :: 0 <= i < |links| && GroupKey(links[i]) in InheritedNames
  }

  /** The grouping as written crashes exactly when some link's group name is an inherited
      property name, and otherwise builds the intended groups. */
  lemma {:induction false} GroupsAsWrittenSpec(links: seq<FriendLink>)
    ensures GroupsAsWritten(links) == if HasInheritedKey(links) then None else Some(Groups(links))
  {
    if |links| > 0 {
      var init := links[..|links| - 1];
      var k := GroupKey(links[|links| - 1]);
      GroupsAsWrittenSpec(init);
      if HasInheritedKey(init) {
        var i :| 0 <= i < |init| && GroupKey(init[i]) in InheritedNames;
        assert links[i] == init[i];
      } else if k in Groups(init) {
        GroupKeySpec(init, k);
        var i :| 0 <= i < |init| && GroupKey(init[i]) == k;
        assert k !in InheritedNames;
      }
    }
  }

  /** A single link in the category "constructor" crashes the friends page as written. */
  lemma ConstructorCategoryCrashes()
    ensures GroupsAsWritten([FriendLink("1", "Blog", "https://blog.example", None, None, Some("constructor"))]) == None
  {
    var links := [FriendLink("1", "Blog", "https://blog.example", None, None, Some("constructor"))];
    assert links[..0] == [];
    assert GroupKey(links[0]) == "constructor";
  }

  /** Absent `friendLinks` yields no groups. */
  function GroupedLinks(friendLinks: Option<seq<FriendLink>>): map<string, seq<FriendLink>> {
    if friendLinks.None? then map[] else Groups(friendLinks.value)
  }

  function InGroup(k: string): FriendLink -> bool {
    HasKey(GroupKey, k)
  }

  /** A group exists exactly when some link has its key, and it holds those links and no
      others, in configuration order. */
  lemma {:induction false} GroupsAt(links: seq<FriendLink>, k: string)
    ensures k in Groups(links) <==> Filter(links, InGroup(k)) != []
    ensures k in Groups(links) ==> Groups(links)[k] == Filter(links, InGroup(k))
  {
    if |links| > 0 {
      var init := links[..|links| - 1];
      var l := links[|links| - 1];
      GroupsAt(init, k);
      assert links == init + [l];
      FilterConcat(init, [l], InGroup(k));
    }
  }

  /** A group exists exactly when some link has its key; it is never empty and holds only
      links with that key. */
  lemma GroupKeySpec(links: seq<FriendLink>, k: string)
    ensures k in Groups(links) <==> exists i :: 0 <= i < |links| && GroupKey(links[i]) == k
    ensures k in Groups(links) ==> Groups(links)[k] != [] && forall l :: l in Groups(links)[k] ==> GroupKey(l) == k
  {
    var f := Filter(links, InGroup(k));
    GroupsAt(links, k);
    FilterMembers(links, InGroup(k));
    if f != [] {
      assert f[0] in f;
    } else {
      forall i | 0 <= i < |links|
        ensures GroupKey(links[i]) != k
      {
        assert links[i] !in f;
      }
    }
  }

  /** Every link is in the group named by its key. */
  lemma LinkInItsGroup(links: seq<FriendLink>, i: nat)
    requires i < |links|
    ensures GroupKey(links[i]) in Groups(links) && links[i] in Groups(links)[GroupKey(links[i])]
  {
    var k := GroupKey(links[i]);
    GroupsAt(links, k);
    FilterMembers(links, InGroup(k));
    assert links[i] in Filter(links, InGroup(k));
  }

  function Keys(links: seq<FriendLink>): (r: seq<string>)
    ensures |r| == |links|
    ensures forall i :: 0 <= i < |links| ==> r[i] == GroupKey(links[i])
  {
    seq(|links|, i requires 0 <= i < |links| => GroupKey(links[i]))
  }

  function Name(s: string): string { s }

  /** `Object.keys(groupedLinks).sort()`: the keys in insertion order, then sorted by code
      units. */
  function SortedCategories(friendLinks: Option<seq<FriendLink>>): seq<string> {
    if friendLinks.None? then [] else SortBy(Dedup(Keys(friendLinks.value)), Name)
  }

  /** The category list is sorted, has no repeats, and names exactly the groups. */
  lemma SortedCategoriesSpec(friendLinks: Option<seq<FriendLink>>)
    ensures var r := SortedCategories(friendLinks);
      && SortedBy(r, Name)
      && NoDuplicates(r)
      && forall k :: k in r <==> k in GroupedLinks(friendLinks)
  {
    if friendLinks.Some? {
      var links := friendLinks.value;
      var d := Dedup(Keys(links));
      DedupFromSpec(Keys(links), {});
      SortBySorted(d, Name);
      NoDuplicatesPerm(d, SortBy(d, Name));
      forall k
        ensures k in SortBy(d, Name) <==> k in Groups(links)
      {
        assert k in SortBy(d, Name) <==> k in multiset(d);
        GroupKeySpec(links, k);
        if k in Keys(links) {
          var i :| 0 <= i < |links| && Keys(links)[i] == k;
        }
        if exists i :: 0 <= i < |links| && GroupKey(links[i]) == k {
          var i :| 0 <= i < |links| && GroupKey(links[i]) == k;
          assert Keys(links)[i] == k;
        }
      }
    }
  }

  /** No links, no groups: the view shows its empty placeholder. */
  lemma NoLinksNoGroups(friendLinks: Option<seq<FriendLink>>)
    requires friendLinks.None? || friendLinks.value == []
    ensures GroupedLinks(friendLinks) == map[] && SortedCategories(friendLinks) == []
  {
  }
}

/** Membership resolution for user groups: for each user, the entries of an
    ordered group catalog the user belongs to, and the group data built from
    them (src/groups/user.ts, findUserGroups, getUserGroupMembership,
    getUserGroupsFromSet and getUserGroups). */
module GroupMembership {
  import opened Sequences

  /** One entry `{name, i}` of an ordered group catalog. */
  datatype CatalogEntry = CatalogEntry(name: string, i: int)

  /** The collaborators the resolution calls: the sorted-set read of the
      database (`db.getSortedSetRevRange(set, 0, -1)`, the full range), the
      bulk membership test (`Groups.isMemberOfGroups`, one boolean per catalog
      entry) and the group-data fetch (`Groups.getGroupsData`), whose result
      type `D` is left open. */
  datatype Store<D> = Store(
    getSortedSetRevRange: string -> seq<CatalogEntry>,
    isMemberOfGroups: (string, seq<CatalogEntry>) -> seq<bool>,
    getGroupsData: seq<CatalogEntry> -> D)

  /** The catalog key getUserGroups reads: visible groups by creation time. */
  const VisibleByCreateTime := "groups:visible:createtime"

  /** The catalog entries `uid` belongs to, in catalog order (the lemma
      FindUserGroupsExact says which). */
  function FindUserGroups<D>(store: Store<D>, uid: string, groupNames: seq<CatalogEntry>): (r: seq<CatalogEntry>)
    ensures |r| <= |groupNames|
    ensures forall e :: e in r ==> e in groupNames
  {
    var isMembers := store.isMemberOfGroups(uid, groupNames);
    Select(groupNames, isMembers)
  }

  /** findUserGroups keeps exactly the catalog entries at the positions the
      membership vector marks, in catalog order, and nothing else does. */
  lemma FindUserGroupsExact<D>(store: Store<D>, uid: string, groupNames: seq<CatalogEntry>, r: seq<CatalogEntry>)
    ensures r == FindUserGroups(store, uid, groupNames)
        <==> SelectsExactly(r, groupNames, store.isMemberOfGroups(uid, groupNames))
    ensures IsSubsequence(FindUserGroups(store, uid, groupNames), groupNames)
  {
    SelectCharacterization(r, groupNames, store.isMemberOfGroups(uid, groupNames));
    SelectIsSubsequence(groupNames, store.isMemberOfGroups(uid, groupNames));
  }

  /** One membership list per uid, index-aligned with `uids`, each drawn
      from the catalog (MembershipListExact says which entries, in which
      order). */
  function GetUserGroupMembership<D>(store: Store<D>, setKey: string, uids: seq<string>): (r: seq<seq<CatalogEntry>>)
    ensures |r| == |uids|
    ensures forall k, e :: 0 <= k < |uids| && e in r[k] ==> e in store.getSortedSetRevRange(setKey)
  {
    var groupNames := store.getSortedSetRevRange(setKey);
    seq(|uids|, k requires 0 <= k < |uids| => FindUserGroups(store, uids[k], groupNames))
  }

  /** List `k` holds exactly the catalog entries uid `k` belongs to, in
      catalog order. */
  lemma MembershipListExact<D>(store: Store<D>, setKey: string, uids: seq<string>, k: nat)
    requires k < |uids|
    ensures var catalog := store.getSortedSetRevRange(setKey);
      && SelectsExactly(GetUserGroupMembership(store, setKey, uids)[k], catalog, store.isMemberOfGroups(uids[k], catalog))
      && IsSubsequence(GetUserGroupMembership(store, setKey, uids)[k], catalog)
  {
    var catalog := store.getSortedSetRevRange(setKey);
    SelectSelectsExactly(catalog, store.isMemberOfGroups(uids[k], catalog));
    SelectIsSubsequence(catalog, store.isMemberOfGroups(uids[k], catalog));
  }

  /** One group-data result per uid, index-aligned with `uids`: element `k` is
      the group data of uid `k`'s own membership list, the list a request for
      that uid alone would resolve. */
  function GetUserGroupsFromSet<D>(store: Store<D>, setKey: string, uids: seq<string>): (r: seq<D>)
    ensures |r| == |uids|
    ensures forall k :: 0 <= k < |uids| ==>
      r[k] == store.getGroupsData(GetUserGroupMembership(store, setKey, [uids[k]])[0])
  {
    var memberOf := GetUserGroupMembership(store, setKey, uids);
    seq(|memberOf|, k requires 0 <= k < |memberOf| => store.getGroupsData(memberOf[k]))
  }

  /** getUserGroupsFromSet over the catalog of visible groups by creation
      time: element `k` is the group data of the visible groups uid `k`
      belongs to, in catalog order. */
  function GetUserGroups<D>(store: Store<D>, uids: seq<string>): (r: seq<D>)
    ensures |r| == |uids|
    ensures forall k :: 0 <= k < |uids| ==>
      var catalog := store.getSortedSetRevRange(VisibleByCreateTime);
      r[k] == store.getGroupsData(Select(catalog, store.isMemberOfGroups(uids[k], catalog)))
  {
    GetUserGroupsFromSet(store, VisibleByCreateTime, uids)
  }

  /** Resolving a batch of uids is resolving each part of it separately: the
      result for `u1 + u2` is the result for `u1` followed by the result for
      `u2`, so no uid's list depends on the others or on completion order. */
  lemma MembershipOfConcatenation<D>(store: Store<D>, setKey: string, u1: seq<string>, u2: seq<string>)
    ensures GetUserGroupMembership(store, setKey, u1 + u2)
         == GetUserGroupMembership(store, setKey, u1) + GetUserGroupMembership(store, setKey, u2)
  {
  }

  /** An empty batch of uids resolves to an empty list of results. */
  lemma NoUidsNoGroups<D>(store: Store<D>, setKey: string)
    ensures GetUserGroupMembership(store, setKey, []) == []
    ensures GetUserGroupsFromSet(store, setKey, []) == []
  {
  }

  /** The catalog `[{a, 0}, {b, 1}]` with uids `[u1, u2]`, where u1 belongs to
      `a` only and u2 to both, resolves to `[[{a, 0}], [{a, 0}, {b, 1}]]`. */
  lemma TwoUsersScenario<D>(store: Store<D>, setKey: string)
    requires store.getSortedSetRevRange(setKey) == [CatalogEntry("a", 0), CatalogEntry("b", 1)]
    requires store.isMemberOfGroups("u1", store.getSortedSetRevRange(setKey)) == [true, false]
    requires store.isMemberOfGroups("u2", store.getSortedSetRevRange(setKey)) == [true, true]
    ensures GetUserGroupMembership(store, setKey, ["u1", "u2"])
         == [[CatalogEntry("a", 0)], [CatalogEntry("a", 0), CatalogEntry("b", 1)]]
  {
    var a, b := CatalogEntry("a", 0), CatalogEntry("b", 1);
    TwoEntrySelections(a, b);
    var r := GetUserGroupMembership(store, setKey, ["u1", "u2"]);
    assert r[0] == Select([a, b], [true, false]);
    assert r[1] == Select([a, b], [true, true]);
  }

  lemma TwoEntrySelections<T>(a: T, b: T)
    ensures Select([a, b], [true, false]) == [a]
    ensures Select([a, b], [true, true]) == [a, b]
  {
    SelectSnoc([], a, [true, false]);
    SelectSnoc([a], b, [true, false]);
    SelectSnoc([], a, [true, true]);
    SelectSnoc([a], b, [true, true]);
    assert [] + [a] == [a] && [a] + [b] == [a, b];
  }
}

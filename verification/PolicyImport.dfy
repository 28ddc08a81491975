/** What the import of a menu file does to the policy, which it can change but never stamps. */
module PolicyImport {
  import opened Wrappers
  import opened Tables
  import opened MenuTree
  import opened MenuOps
  import opened MenuImport
  import opened Policy

  /** Every role reaches the same menus. */
  ghost predicate SameReach(s: Store, t: Store) {
    forall roleID, x :: Reaches(t, roleID, x) <==> Reaches(s, roleID, x)
  }

  /** No resource that is only in `t` hangs on a menu that some role reaches. */
  ghost predicate NothingNewReached(s: Store, t: Store) {
    forall k, roleID :: k in t.resources && k !in s.resources ==> !Reaches(s, roleID, t.resources[k].menuID)
  }

  lemma SameShareExactly(s: Store, t: Store, roleID: string)
    requires forall k :: k in s.resources ==> k in t.resources && t.resources[k] == s.resources[k]
    requires forall x :: Reaches(t, roleID, x) <==> Reaches(s, roleID, x)
    ensures SameShare(s, t, roleID) <==>
              forall k :: k in t.resources && k !in s.resources ==> !Reaches(s, roleID, t.resources[k].menuID)
  {
    if SameShare(s, t, roleID) {
      forall k | k in t.resources && k !in s.resources ensures !Reaches(s, roleID, t.resources[k].menuID) {
        assert k !in RoleResources(s, roleID);
        assert k !in RoleResources(t, roleID);
      }
    }
  }

  /** An import changes nothing a load reads, exactly when no reach changes and nothing is added within reach. */
  lemma ImportIsQuiet(s: Store, items: seq<FileItem>, gen: IdSource, now: int)
    ensures var t := ImportItems(s, items, None, gen, now);
            SamePolicy(s, t) <==> SameReach(s, t) && NothingNewReached(s, t)
  {
    var t := ImportItems(s, items, None, gen, now);
    ImportOnlyAdds(s, items, None, gen, now);
    if SamePolicy(s, t) {
      forall roleID, x ensures Reaches(t, roleID, x) <==> Reaches(s, roleID, x) {
        assert SameShare(s, t, roleID);
      }
      forall k, roleID | k in t.resources && k !in s.resources ensures !Reaches(s, roleID, t.resources[k].menuID) {
        SameShareExactly(s, t, roleID);
        assert SameShare(s, t, roleID);
      }
    }
    if SameReach(s, t) && NothingNewReached(s, t) {
      forall roleID ensures SameShare(s, t, roleID) {
        SameShareExactly(s, t, roleID);
      }
    }
  }

  /** Some role holds menu `g`. */
  ghost predicate Held(s: Store, g: string) {
    exists roleID :: GrantedToRole(s.roleMenus, roleID, g)
  }

  /** Menus that a role holds are neither added, enabled nor disabled. */
  ghost predicate HeldMenusStay(s: Store, t: Store) {
    forall g :: g in t.menus && Held(s, g) ==>
      g in s.menus && (t.menus[g].status == ENABLED <==> s.menus[g].status == ENABLED)
  }

  lemma KeptAncestors(m: MenuTable, m': MenuTable, a: string, g: string)
    requires PathInv(m) && PathInv(m') && KeepsRows(m, m') && g in m
    ensures IsAncestor(m', a, g) <==> IsAncestor(m, a, g)
  {
    ChainFromParents(m, m', g);
    ChainIsAncestors(m, a, g);
    ChainIsAncestors(m', a, g);
  }

  lemma HeldMenusStayGranted(s: Store, t: Store, roleID: string, g: string)
    requires KeepsRows(s.menus, t.menus) && t.roleMenus == s.roleMenus && HeldMenusStay(s, t)
    ensures Granted(t, roleID, g) <==> Granted(s, roleID, g)
  {
    if GrantedToRole(s.roleMenus, roleID, g) {
      assert Held(s, g);
    }
  }

  /** As long as the menus that roles hold keep their status, a safe import changes no reach. */
  lemma HeldMenusStayReached(s: Store, items: seq<FileItem>, gen: IdSource, now: int)
    requires PathInv(s.menus) && SafeItems(s, items, None, gen, now)
    requires HeldMenusStay(s, ImportItems(s, items, None, gen, now))
    ensures SameReach(s, ImportItems(s, items, None, gen, now))
  {
    var t := ImportItems(s, items, None, gen, now);
    ImportKeepsPathInv(s, items, None, gen, now);
    ImportKeepsRows(s, items, None, gen, now);
    ImportOnlyAdds(s, items, None, gen, now);
    forall roleID, x ensures Reaches(t, roleID, x) <==> Reaches(s, roleID, x) {
      forall g ensures Granted(t, roleID, g) <==> Granted(s, roleID, g) {
        HeldMenusStayGranted(s, t, roleID, g);
      }
      forall g | Granted(s, roleID, g) ensures IsAncestor(t.menus, x, g) <==> IsAncestor(s.menus, x, g) {
        KeptAncestors(s.menus, t.menus, x, g);
      }
    }
  }

  /** A file that names menu `g` as it is, with one resource. */
  function OneResource(s: Store, g: string, verb: string, path: string): seq<FileItem>
    requires g in s.menus
  {
    [FileItem(s.menus[g].(parentPath := ""), [Resource("", "", verb, path, 0, 0)], [])]
  }

  lemma OneResourceImport(s: Store, g: string, verb: string, path: string, gen: IdSource, now: int)
    requires PathInv(s.menus) && g in s.menus && s.menus[g].status == ENABLED
    requires !HasResource(s.resources, verb, path, g)
    ensures var r := WithTimes(Resource(gen(s), g, verb, path, 0, 0), now);
            ImportItems(s, OneResource(s, g, verb, path), None, gen, now) == s.(resources := s.resources[r.id := r])
  {
    var items := OneResource(s, g, verb, path);
    var item := items[0];
    assert Find(s.menus, item.row, "") == Some(g);
    assert ENABLED != "";
    assert RowFor(s, item.row, 1, None, gen, now) == s.menus[g];
    assert s.menus[g := s.menus[g]] == s.menus;
    assert ImportRow(s, item.row, 1, None, gen, now) == s;
    var t := ImportResource(s, item.resources[0], g, gen, now);
    assert item.resources[1..] == [];
    assert ImportResources(t, item.resources[1..], g, gen, now) == t;
    assert AfterItem(s, item, 1, None, gen, now) == t;
    assert items[1..] == [];
    assert ImportItems(t, items[1..], None, gen, now) == t;
  }

  /**
   In every table state in which an enabled role holds an enabled menu, each rule that the role lacks can be
   given to it by importing a file that is safe, and the import writes no stamp.
   */
  lemma ImportChangesPolicyUnstamped(
      s: Store, roleID: string, g: string, verb: string, path: string, gen: IdSource, now: int)
    requires PathInv(s.menus) && roleID in EnabledRoles(s) && Granted(s, roleID, g)
    requires Rule(roleID, path, verb) !in PolicyOf(s)
    ensures var items := OneResource(s, g, verb, path);
            var t := ImportItems(s, items, None, gen, now);
            && SafeFile(items, true)
            && Rule(roleID, path, verb) in PolicyOf(t) && PolicyOf(t) != PolicyOf(s)
            && t.stamp == s.stamp
  {
    if HasResource(s.resources, verb, path, g) { AttachedIsRule(s, roleID, g, verb, path); }
    OneResourceImport(s, g, verb, path, gen, now);
    var t := ImportItems(s, OneResource(s, g, verb, path), None, gen, now);
    var id := gen(s);
    assert t.resources[id].menuID == g;
    AttachedIsRule(t, roleID, g, verb, path);
  }

  /** A resource on an enabled menu gives every enabled role that holds the menu a rule. */
  lemma AttachedIsRule(s: Store, roleID: string, g: string, verb: string, path: string)
    requires roleID in EnabledRoles(s) && Granted(s, roleID, g) && HasResource(s.resources, verb, path, g)
    ensures Rule(roleID, path, verb) in PolicyOf(s)
  {
    var k :| k in s.resources && s.resources[k].verb == verb && s.resources[k].path == path
        && s.resources[k].menuID == g;
    assert Reaches(s, roleID, g);
    assert k in RoleResources(s, roleID);
    assert Rule(roleID, s.resources[k].path, s.resources[k].verb) in PolicyOf(s);
  }
}

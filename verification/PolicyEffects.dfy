/** What single operations do to the compiled policy, rule by rule. */
module PolicyEffects {
  import opened Tables
  import opened MenuTree
  import opened MenuOps
  import opened MenuContents
  import opened Policy
  import opened PolicyImport
  import Access
  import AccessContents

  /** Menu `x` is `g` or lies above it. */
  ghost predicate AtOrAboveMenu(m: MenuTable, x: string, g: string) {
    x == g || IsAncestor(m, x, g)
  }

  /** A role that is enabled, an enabled menu that it holds, and a resource on that menu or above it. */
  ghost predicate Witnesses(s: Store, rule: Rule, g: string, k: string) {
    && rule.roleID in s.roles && s.roles[rule.roleID].status == "enabled"
    && g in s.menus && s.menus[g].status == "enabled"
    && (exists h :: h in s.roleMenus && s.roleMenus[h].roleID == rule.roleID && s.roleMenus[h].menuID == g)
    && k in s.resources && s.resources[k].path == rule.path && s.resources[k].verb == rule.verb
    && AtOrAboveMenu(s.menus, s.resources[k].menuID, g)
  }

  /** The policy, rule by rule: nothing is in it without such a witness, and nothing that has one is missing. */
  lemma PolicySays(s: Store, rule: Rule)
    ensures rule in PolicyOf(s) <==> exists g, k :: Witnesses(s, rule, g, k)
  {
    if rule in PolicyOf(s) {
      var r, k :| r in EnabledRoles(s) && k in RoleResources(s, r)
                  && rule == Rule(r, s.resources[k].path, s.resources[k].verb);
      var g :| Granted(s, r, g) && (g == s.resources[k].menuID || IsAncestor(s.menus, s.resources[k].menuID, g));
      assert Witnesses(s, rule, g, k);
    }
    if g, k :| Witnesses(s, rule, g, k) {
      assert Granted(s, rule.roleID, g);
      assert Reaches(s, rule.roleID, s.resources[k].menuID);
      assert k in RoleResources(s, rule.roleID);
      assert Rule(rule.roleID, s.resources[k].path, s.resources[k].verb) in PolicyOf(s);
    }
  }

  /** No rule without a role that is there and enabled: deleting or disabling a role takes all its rules away. */
  lemma DisabledRoleHasNoRule(s: Store, rule: Rule)
    requires rule.roleID !in s.roles || s.roles[rule.roleID].status != "enabled"
    ensures rule !in PolicyOf(s)
  {
    PolicySays(s, rule);
  }

  /** The rules that a role has through the menus of a list. */
  ghost predicate RuleThrough(s: Store, rows: seq<RoleMenu>, rule: Rule) {
    exists i, k ::
      && 0 <= i < |rows| && rows[i].menuID in s.menus && s.menus[rows[i].menuID].status == "enabled"
      && k in s.resources && s.resources[k].path == rule.path && s.resources[k].verb == rule.verb
      && AtOrAboveMenu(s.menus, s.resources[k].menuID, rows[i].menuID)
  }

  lemma RulesOfGrants(s: Store, t: Store, id: string, rows: seq<RoleMenu>, rule: Rule)
    requires Access.GrantsAre(s.roleMenus, t.roleMenus, id, rows)
    requires t.menus == s.menus && t.resources == s.resources && rule.roleID == id
    ensures rule in PolicyOf(t) <==>
              id in t.roles && t.roles[id].status == "enabled" && RuleThrough(s, rows, rule)
  {
    PolicySays(t, rule);
    if g, k :| Witnesses(t, rule, g, k) {
      assert GrantedToRole(t.roleMenus, id, g);
      var i :| 0 <= i < |rows| && rows[i].menuID == g;
      assert RuleThrough(s, rows, rule);
    }
    if id in t.roles && t.roles[id].status == "enabled" && RuleThrough(s, rows, rule) {
      var i, k :| && 0 <= i < |rows| && rows[i].menuID in s.menus && s.menus[rows[i].menuID].status == "enabled"
                  && k in s.resources && s.resources[k].path == rule.path && s.resources[k].verb == rule.verb
                  && AtOrAboveMenu(s.menus, s.resources[k].menuID, rows[i].menuID);
      assert GrantedToRole(t.roleMenus, id, rows[i].menuID);
      assert Witnesses(t, rule, rows[i].menuID, k);
    }
  }

  lemma RulesOfOthers(s: Store, t: Store, id: string, rows: seq<RoleMenu>, rule: Rule)
    requires Access.GrantsAre(s.roleMenus, t.roleMenus, id, rows)
    requires t.menus == s.menus && t.resources == s.resources && rule.roleID != id
    requires rule.roleID in t.roles <==> rule.roleID in s.roles
    requires rule.roleID in s.roles ==> t.roles[rule.roleID] == s.roles[rule.roleID]
    ensures rule in PolicyOf(t) <==> rule in PolicyOf(s)
  {
    PolicySays(s, rule);
    PolicySays(t, rule);
    forall g, k ensures Witnesses(t, rule, g, k) <==> Witnesses(s, rule, g, k) {
      if h :| h in s.roleMenus && s.roleMenus[h].roleID == rule.roleID && s.roleMenus[h].menuID == g {
        assert h in t.roleMenus && t.roleMenus[h] == s.roleMenus[h];
      }
      if h :| h in t.roleMenus && t.roleMenus[h].roleID == rule.roleID && t.roleMenus[h].menuID == g {
        assert h in s.roleMenus && s.roleMenus[h] == t.roleMenus[h];
      }
    }
  }

  /**
   After `Update` of a role it has exactly the rules of the form's menus if the form enables it, and others keep
   theirs.
   */
  lemma UpdatedRoleRules(
      a: Access.Accounts, id: string, f: Access.RoleForm, gen: Access.AccountIdSource, now: int, rule: Rule)
    requires Access.UpdateRole(a, id, f, gen, now).Success?
    ensures var t := Access.UpdateRole(a, id, f, gen, now).value;
            rule in PolicyOf(t.store) <==>
              if rule.roleID == id then f.status == "enabled" && RuleThrough(a.store, f.menus, rule)
              else rule in PolicyOf(a.store)
  {
    var t := Access.UpdateRole(a, id, f, gen, now).value;
    Access.UpdatedRoleSays(a, id, f, gen, now);
    if rule.roleID == id {
      RulesOfGrants(a.store, t.store, id, f.menus, rule);
    } else {
      RulesOfOthers(a.store, t.store, id, f.menus, rule);
    }
  }

  /** The same for a role just created. */
  lemma CreatedRoleRules(a: Access.Accounts, f: Access.RoleForm, gen: Access.AccountIdSource, now: int, rule: Rule)
    requires Access.CreateRole(a, f, gen, now).Success?
    ensures var t := Access.CreateRole(a, f, gen, now).value;
            rule in PolicyOf(t.store) <==>
              if rule.roleID == gen(a) then f.status == "enabled" && RuleThrough(a.store, f.menus, rule)
              else rule in PolicyOf(a.store)
  {
    var t := Access.CreateRole(a, f, gen, now).value;
    Access.CreateRoleEffect(a, f, gen, now);
    if rule.roleID == gen(a) {
      RulesOfGrants(a.store, t.store, gen(a), f.menus, rule);
    } else {
      RulesOfOthers(a.store, t.store, gen(a), f.menus, rule);
    }
  }

  /** Deleting a role takes exactly its rules. */
  lemma DeletedRoleRules(a: Access.Accounts, id: string, now: int, rule: Rule)
    requires id in a.store.roles
    ensures Access.DeleteRole(a, id, now).Success?
    ensures rule in PolicyOf(Access.DeleteRole(a, id, now).value.store) <==>
              rule.roleID != id && rule in PolicyOf(a.store)
  {
    var t := Access.DeleteRole(a, id, now).value;
    AccessContents.DeletedRoleSays(a, id, now);
    if rule.roleID == id {
      DisabledRoleHasNoRule(t.store, rule);
    } else {
      RulesOfOthers(a.store, t.store, id, [], rule);
    }
  }

  /**
   After `Update` of a menu every enabled role that holds it, enabled, has the rules of exactly the form's resources
   through the menu itself.
   */
  lemma UpdatedMenuRules(s: Store, id: string, f: MenuForm, gen: IdSource, now: int, roleID: string)
    requires UpdateMenu(s, id, f, gen, now).Success? && Keyed(s.menus)
    requires roleID in s.roles && s.roles[roleID].status == "enabled"
    requires GrantedToRole(s.roleMenus, roleID, id) && f.status == "enabled"
    ensures var t := UpdateMenu(s, id, f, gen, now).value;
            && (forall i :: 0 <= i < |f.resources| ==>
                  Rule(roleID, f.resources[i].path, f.resources[i].verb) in PolicyOf(t))
            && (forall k :: k in t.resources && t.resources[k].menuID == id ==>
                  exists i :: 0 <= i < |f.resources| && f.resources[i].path == t.resources[k].path
                              && f.resources[i].verb == t.resources[k].verb)
  {
    var t := UpdateMenu(s, id, f, gen, now).value;
    UpdatedMenuSays(s, id, f, gen, now);
    forall i | 0 <= i < |f.resources| ensures Rule(roleID, f.resources[i].path, f.resources[i].verb) in PolicyOf(t) {
      assert Granted(t, roleID, id);
      AttachedIsRule(t, roleID, id, f.resources[i].verb, f.resources[i].path);
    }
    forall k | k in t.resources && t.resources[k].menuID == id
      ensures exists i :: 0 <= i < |f.resources| && f.resources[i].path == t.resources[k].path
                          && f.resources[i].verb == t.resources[k].verb
    {
      assert FromForm(t.resources[k], f.resources, id);
    }
  }

  /** A menu that `Update` disables gives no role a rule, unless through another menu that the role holds. */
  lemma DisabledMenuGivesNothing(s: Store, rule: Rule)
    requires forall g :: g in s.menus && GrantedToRole(s.roleMenus, rule.roleID, g) ==> s.menus[g].status != "enabled"
    ensures rule !in PolicyOf(s)
  {
    PolicySays(s, rule);
    if g, k :| Witnesses(s, rule, g, k) { assert GrantedToRole(s.roleMenus, rule.roleID, g); }
  }
}

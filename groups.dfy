/** What the group list (`getGroupList`) is made of: the distinct group
    values of the table, each split into group names. */
module Groups {

  import opened Strings
  import opened Sorting
  import opened BookSources

  /** `SELECT DISTINCT bookSourceGroup FROM the table`. */
  function GroupValues(m: Table): (gs: set<string>)
    ensures forall k :: k in m ==> m[k].group in gs
    ensures forall g :: g in gs ==> exists k :: k in m && m[k].group == g
  {
    set k | k in m :: m[k].group
  }

  /** `t` is a non-empty token of a non-blank value in `gs`. */
  ghost predicate FromGroups(gs: set<string>, t: string)
  {
    t != "" && exists g :: g in gs && !IsBlank(g) && t in Split(g)
  }

  /** `t` is a group name of some source of the table. */
  ghost predicate IsGroupName(m: Table, t: string)
  {
    t != "" && exists k :: k in m && !IsBlank(m[k].group) && t in Split(m[k].group)
  }

  lemma FromGroupValues(m: Table, t: string)
    ensures FromGroups(GroupValues(m), t) <==> IsGroupName(m, t)
  {
    if FromGroups(GroupValues(m), t) {
      var g :| g in GroupValues(m) && !IsBlank(g) && t in Split(g);
      var k :| k in m && m[k].group == g;
    }
  }

  lemma FromGroupsAdd(gs: set<string>, g: string, t: string)
    ensures FromGroups(gs + {g}, t) <==> FromGroups(gs, t) || (t != "" && !IsBlank(g) && t in Split(g))
  {
  }

  lemma FromGroupsAddAll(gs: set<string>, g: string)
    ensures forall t :: FromGroups(gs + {g}, t) <==> FromGroups(gs, t) || (t != "" && !IsBlank(g) && t in Split(g))
  {
    forall t ensures FromGroups(gs + {g}, t) <==> FromGroups(gs, t) || (t != "" && !IsBlank(g) && t in Split(g)) {
      FromGroupsAdd(gs, g, t);
    }
  }

  lemma FromGroupValuesAll(m: Table)
    ensures forall t :: FromGroups(GroupValues(m), t) <==> IsGroupName(m, t)
  {
    forall t ensures FromGroups(GroupValues(m), t) <==> IsGroupName(m, t) {
      FromGroupValues(m, t);
    }
  }

  /** The group list is sorted by String.compareTo, a total order. */
  lemma GroupOrderIsTotalPreorder()
    ensures TotalPreorder(StrLe)
  {
    forall a, b ensures StrLe(a, b) || StrLe(b, a) {
      StrLeTotal(a, b);
    }
    forall a, b, c | StrLe(a, b) && StrLe(b, c) ensures StrLe(a, c) {
      StrLeTransitive(a, b, c);
    }
  }
}

/** The teacher dashboard's list of groups and selected group, and what a
    delete does to them locally. */
module Teacher {
  import opened Wrappers
  import opened Groups
  import Seqs

  /** The dashboard state: the fetched groups and the one being viewed. */
  datatype Dashboard = Dashboard(groups: seq<Group>, selected: Option<Group>)

  /** `groups.filter(g => g.id !== id)`. */
  function Without(groups: seq<Group>, id: string): (r: seq<Group>)
    ensures forall i :: 0 <= i < |r| ==> r[i].id != id
    ensures forall g :: multiset(r)[g] == if g.id == id then 0 else multiset(groups)[g]
  {
    Seqs.Filter(groups, (g: Group) => g.id != id)
  }

  /** Deleting a group. Nothing changes unless the teacher confirms and the
      request succeeds; then every entry with that id leaves the list and the
      selection is cleared exactly when it was that group. */
  function DeleteGroup(dash: Dashboard, id: string, confirmed: bool, deleteOk: bool): (r: Dashboard)
    ensures !(confirmed && deleteOk) ==> r == dash
    ensures confirmed && deleteOk ==> r.groups == Without(dash.groups, id)
    ensures confirmed && deleteOk ==>
              (r.selected.None? <==> dash.selected.None? || dash.selected.value.id == id)
    ensures r.selected.Some? ==> r.selected == dash.selected
  {
    if !confirmed || !deleteOk then dash
    else
      var groups := Without(dash.groups, id);
      if dash.selected.Some? && dash.selected.value.id == id then Dashboard(groups, None)
      else Dashboard(groups, dash.selected)
  }

  /** The remaining groups keep their relative order. */
  lemma WithoutKeepsOrder(a: seq<Group>, b: seq<Group>, id: string)
    ensures Without(a + b, id) == Without(a, id) + Without(b, id)
  {
    Seqs.FilterAppend(a, b, (g: Group) => g.id != id);
  }

  /** Deleting an id that no listed group has leaves the list as it was. */
  lemma WithoutAbsentId(groups: seq<Group>, id: string)
    requires forall i :: 0 <= i < |groups| ==> groups[i].id != id
    ensures Without(groups, id) == groups
  {
    Seqs.FilterKeepsAll(groups, (g: Group) => g.id != id);
  }

  /** A second successful delete of the same id changes nothing more. */
  lemma DeleteTwice(dash: Dashboard, id: string)
    ensures DeleteGroup(DeleteGroup(dash, id, true, true), id, true, true)
            == DeleteGroup(dash, id, true, true)
  {
    WithoutAbsentId(Without(dash.groups, id), id);
  }
}

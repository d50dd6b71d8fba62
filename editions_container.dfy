/**
 * The props selector of the editions container
 * (src/containers/NewspaperEditionsContainerView.js, `mapStateToProps`):
 * the ordered list of edition info records for the view, the fetch flags,
 * and the position of the selected edition in that list.
 */
module EditionsContainer {
  import opened Wrappers
  import opened Actions
  import Editions

  /**
   * The fields of `state.editionsInfo` that the selector reads.  `isFetching`
   * and `hasFetched` are read under those names whatever they hold; `None`
   * stands for an absent field.
   */
  datatype EditionsInfo = EditionsInfo(
    editions: map<Id, Edition>,
    editionIdsNewestToOldest: seq<Id>,
    isFetching: Option<bool>,
    hasFetched: Option<bool>,
    selectedEditionId: Option<Id>)

  /** The record built for each id of the ordering. */
  datatype EditionInfo = EditionInfo(name: string, id: Id, isPublished: bool)

  datatype Props = Props(
    editionInfoNewestToOldest: seq<EditionInfo>,
    isFetching: Option<bool>,
    hasFetched: Option<bool>,
    selectedEditionIndex: int)

  /** Every id of the ordering has a record in the map. */
  predicate Renderable(info: EditionsInfo)
  {
    forall id :: id in info.editionIdsNewestToOldest ==> id in info.editions
  }

  /** `ids.map(id => ({name, id, isPublished}))`, reading each record from the map. */
  function InfoList(ids: seq<Id>, editions: map<Id, Edition>): (infos: seq<EditionInfo>)
    requires forall id :: id in ids ==> id in editions
    ensures |infos| == |ids|
    ensures forall i :: 0 <= i < |ids| ==>
      && infos[i].id == ids[i]
      && infos[i].name == editions[ids[i]].editionName
      && infos[i].isPublished == editions[ids[i]].isPublished
  {
    if ids == [] then []
    else
      var e := editions[ids[0]];
      [EditionInfo(e.editionName, ids[0], e.isPublished)] + InfoList(ids[1..], editions)
  }

  /**
   * `infos.findIndex(elem => elem.id === sel)`: the first position whose id
   * is the selected one, or -1.  A null selection matches nothing.
   */
  function FindIndex(infos: seq<EditionInfo>, sel: Option<Id>): (k: int)
    ensures -1 <= k < |infos|
    ensures k == -1 <==> (sel == None || forall i :: 0 <= i < |infos| ==> infos[i].id != sel.value)
    ensures k >= 0 ==> sel == Some(infos[k].id) && forall j :: 0 <= j < k ==> infos[j].id != sel.value
  {
    if infos == [] then -1
    else if sel == Some(infos[0].id) then 0
    else
      var k := FindIndex(infos[1..], sel);
      if k == -1 then -1 else k + 1
  }

  function MapStateToProps(info: EditionsInfo): Props
    requires Renderable(info)
  {
    var infos := InfoList(info.editionIdsNewestToOldest, info.editions);
    Props(infos, info.isFetching, info.hasFetched, FindIndex(infos, info.selectedEditionId))
  }

  /**
   * The info list follows the ordering entry by entry, with name and
   * published flag from the map; the fetch flags pass through.
   */
  lemma PropsFollowOrdering(info: EditionsInfo)
    requires Renderable(info)
    ensures var p := MapStateToProps(info);
      && |p.editionInfoNewestToOldest| == |info.editionIdsNewestToOldest|
      && (forall i :: 0 <= i < |info.editionIdsNewestToOldest| ==>
            var id := info.editionIdsNewestToOldest[i];
            && p.editionInfoNewestToOldest[i].id == id
            && p.editionInfoNewestToOldest[i].name == info.editions[id].editionName
            && p.editionInfoNewestToOldest[i].isPublished == info.editions[id].isPublished)
      && p.isFetching == info.isFetching && p.hasFetched == info.hasFetched
  {
  }

  /**
   * The selected index is -1 exactly when the selection is not in the
   * ordering; otherwise it is the first position of the selected id.
   */
  lemma SelectedIndexIsFirstMatch(info: EditionsInfo)
    requires Renderable(info)
    ensures var k := MapStateToProps(info).selectedEditionIndex;
      var ids := info.editionIdsNewestToOldest;
      && -1 <= k < |ids|
      && (k == -1 <==> (info.selectedEditionId == None || info.selectedEditionId.value !in ids))
      && (k >= 0 ==> Some(ids[k]) == info.selectedEditionId
                     && forall j :: 0 <= j < k ==> ids[j] != info.selectedEditionId.value)
  {
    var ids := info.editionIdsNewestToOldest;
    var infos := InfoList(ids, info.editions);
    if info.selectedEditionId.Some? && info.selectedEditionId.value in ids {
      var i :| 0 <= i < |ids| && ids[i] == info.selectedEditionId.value;
      assert infos[i].id == info.selectedEditionId.value;
    }
  }

  /** The editions reducer's map and ordering, when they agree, always feed the selector. */
  lemma ConsistentStoreIsRenderable(s: Editions.State, isFetching: Option<bool>, hasFetched: Option<bool>)
    requires Editions.Consistent(s)
    ensures Renderable(EditionsInfo(s.editions, s.editionIdsNewestToOldest, isFetching, hasFetched,
                                    s.selectedEditionId))
  {
    forall id | id in s.editionIdsNewestToOldest ensures id in s.editions {
      assert id in Editions.Elements(s.editionIdsNewestToOldest);
    }
  }

  /** With a duplicate-free ordering the selected position is the only one holding the selected id. */
  lemma SelectedIndexUnique(s: Editions.State, isFetching: Option<bool>, hasFetched: Option<bool>)
    requires Editions.Consistent(s)
    ensures var info := EditionsInfo(s.editions, s.editionIdsNewestToOldest, isFetching, hasFetched,
                                     s.selectedEditionId);
      Renderable(info) &&
      var k := MapStateToProps(info).selectedEditionIndex;
      k >= 0 ==> forall j :: 0 <= j < |s.editionIdsNewestToOldest| && j != k ==>
                   s.editionIdsNewestToOldest[j] != s.selectedEditionId.value
  {
    var info := EditionsInfo(s.editions, s.editionIdsNewestToOldest, isFetching, hasFetched, s.selectedEditionId);
    ConsistentStoreIsRenderable(s, isFetching, hasFetched);
    SelectedIndexIsFirstMatch(info);
  }

}

/**
 * The status registry: the object persisted under the `pageStatuses`
 * storage key, mapping a page id to its status record, and the safe read
 * of one page's status.
 */
module StatusStore {
  import opened Wrappers

  /** A node identity as the host assigns it. */
  type PageId = string

  /**
   * The persisted registry: page id to the `status` field of that page's
   * record. The empty string stands for a record whose status is missing or
   * empty (falsy); a record itself is always a (truthy) object.
   */
  type Registry = map<PageId, string>

  /**
   * `getStatusSafely(statuses, pageId)`: the stored status of `pageId`, or
   * the empty string when the registry is missing, the id is empty, there
   * is no record, or the record's status is empty.
   */
  function GetStatusSafely(statuses: Option<Registry>, pageId: PageId): (r: string)
    ensures r != "" <==>
      statuses.Some? && pageId != "" && pageId in statuses.value && statuses.value[pageId] != ""
    ensures r != "" ==> r == statuses.value[pageId]
  {
    if statuses.None? || pageId == "" then ""
    else if pageId in statuses.value && statuses.value[pageId] != "" then statuses.value[pageId]
    else ""
  }

  /**
   * `(statuses[pageId] || {}).status || ''`, the read the two status
   * reports use: unlike `GetStatusSafely` it does not test the id.
   */
  function StoredStatus(statuses: Registry, pageId: PageId): (r: string)
    ensures r != "" ==> pageId in statuses && r == statuses[pageId]
    ensures pageId in statuses ==> r == statuses[pageId]
  {
    if pageId in statuses then statuses[pageId] else ""
  }

  /** The two reads agree on every non-empty page id of a present registry... */
  lemma StoredStatusAgreesWithSafeRead(statuses: Registry, pageId: PageId)
    requires pageId != ""
    ensures StoredStatus(statuses, pageId) == GetStatusSafely(Some(statuses), pageId)
  {
  }

  /** ...and differ only on the empty id, which the safe read refuses. */
  lemma StoredStatusDiffersOnEmptyId(statuses: Registry)
    requires "" in statuses && statuses[""] != ""
    ensures StoredStatus(statuses, "") != GetStatusSafely(Some(statuses), "")
  {
  }
}

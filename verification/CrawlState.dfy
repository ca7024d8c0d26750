/** One list's entry in the checkpoint file `_state.json` (src/spconnect/state.py). */
module CrawlState {
  import opened Options

  datatype Status = Pending | InProgress | Complete | Failed

  datatype ListState = ListState(lastItemId: int, itemsWritten: int, changeToken: Option<string>, status: Status)

  const FRESH := ListState(0, 0, None, Pending)

  function Lookup(lists: map<string, ListState>, guid: string): ListState {
    if guid in lists then lists[guid] else FRESH
  }
}

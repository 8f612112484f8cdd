/**
 * The per-entry emit decision of the walker (src/process_entries.rs): test an
 * entry against the compiled pattern and, on a match, send its full path on
 * the result channel.
 */
module ProcessEntries {
  import opened Wrappers
  import opened Constants

  /** What the walker does next after visiting an entry. */
  datatype WalkState = Continue | Skip | Quit

  /**
   * A visited entry: the raw bytes of `path()` and of `file_name()`, which is
   * the last component of that path. No property here relies on that link.
   */
  datatype DirEntry = DirEntry(path: seq<Byte>, fileName: seq<Byte>)

  /** A compiled pattern, seen only through `is_match` on raw bytes. */
  type Regex = seq<Byte> -> bool

  /**
   * The sending end of the result channel, as a sequential queue: a send
   * succeeds and appends while the receiver is still connected.
   */
  class Sender {
    var connected: bool
    var queue: seq<seq<Byte>>

    constructor ()
      ensures connected && queue == []
    {
      connected := true;
      queue := [];
    }

    /** `Sender::send`: fails without enqueuing once the receiver is gone. */
    method Send(item: seq<Byte>) returns (sent: bool)
      modifies this
      ensures sent == old(connected) && connected == old(connected)
      ensures queue == if sent then old(queue) + [item] else old(queue)
    {
      sent := connected;
      if sent {
        queue := queue + [item];
      }
    }

    /** The consumer drops its receiver, for example after taking its top-N results. */
    method DropReceiver()
      modifies this
      ensures !connected && queue == old(queue)
    {
      connected := false;
    }
  }

  /** `re.map_or(true, |search| search.is_match(target))`: no pattern matches everything. */
  predicate IsMatch(re: Option<Regex>, target: seq<Byte>): (m: bool)
    ensures re.None? ==> m
    ensures re.Some? ==> (m <==> re.value(target))
  {
    match re
    case None => true
    case Some(search) => search(target)
  }

  /**
   * `process_entry_fullpath`: the full path is both what is tested and what is
   * sent. A failed send yields Skip; every other outcome is Continue.
   */
  method ProcessEntryFullpath(entry: DirEntry, re: Option<Regex>, tx: Sender) returns (state: WalkState)
    modifies tx
    ensures state != Quit
    ensures state == Skip <==> IsMatch(re, entry.path) && !old(tx.connected)
    ensures tx.connected == old(tx.connected)
    ensures tx.queue == if IsMatch(re, entry.path) && state == Continue
                        then old(tx.queue) + [entry.path] else old(tx.queue)
  {
    var filename := entry.path;
    if IsMatch(re, filename) {
      var sent := tx.Send(filename);
      state := if sent then Continue else Skip;
    } else {
      state := Continue;
    }
  }

  /**
   * `process_entry_shortpath`: only the last component is tested, but the full
   * path is what is sent.
   */
  method ProcessEntryShortpath(entry: DirEntry, re: Option<Regex>, tx: Sender) returns (state: WalkState)
    modifies tx
    ensures state != Quit
    ensures state == Skip <==> IsMatch(re, entry.fileName) && !old(tx.connected)
    ensures tx.connected == old(tx.connected)
    ensures tx.queue == if IsMatch(re, entry.fileName) && state == Continue
                        then old(tx.queue) + [entry.path] else old(tx.queue)
  {
    if IsMatch(re, entry.fileName) {
      var sent := tx.Send(entry.path);
      state := if sent then Continue else Skip;
    } else {
      state := Continue;
    }
  }

  /**
   * A consumer that has dropped its receiver stops the walk below every
   * matching entry: the send fails, nothing is queued, and the walker is told
   * to Skip; entries that do not match still Continue.
   */
  method AfterReceiverDropped(entry: DirEntry, re: Option<Regex>) returns (state: WalkState, queued: seq<seq<Byte>>)
    ensures state == Skip <==> IsMatch(re, entry.path)
    ensures state != Quit
    ensures queued == []
  {
    var tx := new Sender();
    tx.DropReceiver();
    state := ProcessEntryFullpath(entry, re, tx);
    queued := tx.queue;
  }
}

/**
 * The objects that write to disk: `ListWriter` (src/spconnect/landing.py:80-155) and
 * `StateStore` (src/spconnect/state.py:46-96).
 */
module Storage {
  import opened Landing
  import opened CrawlState

  datatype Snapshot = Snapshot(files: Files, states: map<string, ListState>)

  /**
   * What a killed process leaves behind. Every write goes through one of the three methods,
   * each of them one atomic replacement, and the ghost `journal` records what was on disk
   * after every single one, in order.
   */
  class Disk {
    var files: Files
    var states: map<string, ListState>
    ghost var journal: seq<Snapshot>

    constructor (files: Files, states: map<string, ListState>)
      ensures this.files == files && this.states == states && journal == []
    {
      this.files, this.states, journal := files, states, [];
    }

    method PutItems(f: File)
      modifies this
      ensures files == old(files).(items := f) && states == old(states)
      ensures journal == old(journal) + [Snapshot(files, states)]
    {
      files := files.(items := f);
      journal := journal + [Snapshot(files, states)];
    }

    method PutRaw(f: File)
      modifies this
      ensures files == old(files).(raw := f) && states == old(states)
      ensures journal == old(journal) + [Snapshot(files, states)]
    {
      files := files.(raw := f);
      journal := journal + [Snapshot(files, states)];
    }

    method PutStates(m: map<string, ListState>)
      modifies this
      ensures states == m && files == old(files)
      ensures journal == old(journal) + [Snapshot(files, states)]
    {
      states := m;
      journal := journal + [Snapshot(files, states)];
    }
  }

  /** `ListWriter`: every method states both files and what was on disk in between. */
  class ListWriter {
    const disk: Disk
    var linesWritten: nat

    constructor (disk: Disk)
      ensures this.disk == disk && linesWritten == 0
    {
      this.disk, linesWritten := disk, 0;
    }

    /** Opening in append mode creates a missing file. */
    method Open()
      modifies disk
      ensures disk.files == Files(Opened(old(disk.files.items)), Opened(old(disk.files.raw)))
      ensures disk.states == old(disk.states)
      ensures disk.journal == old(disk.journal) +
        [Snapshot(old(disk.files).(items := disk.files.items), disk.states), Snapshot(disk.files, disk.states)]
    {
      disk.PutItems(Opened(disk.files.items));
      disk.PutRaw(Opened(disk.files.raw));
    }

    /** The decoded line first, the raw line second, each flushed. */
    method Write(row: Row)
      modifies this, disk
      ensures disk.files == Files(Appended(old(disk.files.items), row), Appended(old(disk.files.raw), row))
      ensures disk.states == old(disk.states)
      ensures disk.journal == old(disk.journal) +
        [Snapshot(old(disk.files).(items := disk.files.items), disk.states), Snapshot(disk.files, disk.states)]
      ensures linesWritten == old(linesWritten) + 1
    {
      disk.PutItems(Appended(disk.files.items, row));
      disk.PutRaw(Appended(disk.files.raw, row));
      linesWritten := linesWritten + 1;
    }

    method Reset()
      modifies this, disk
      ensures disk.files == Files(Absent, Absent) && disk.states == old(disk.states)
      ensures disk.journal == old(disk.journal) +
        [Snapshot(old(disk.files).(items := Absent), disk.states), Snapshot(disk.files, disk.states)]
      ensures linesWritten == 0
    {
      disk.PutItems(Absent);
      disk.PutRaw(Absent);
      linesWritten := 0;
    }

    /** Both `truncate_after` and `delete_items` rewrite one file after the other and count
        the lines of both. */
    method RewriteBoth(rule: Rule) returns (removed: nat)
      modifies disk
      ensures disk.files == Files(Rewritten(old(disk.files.items), rule), Rewritten(old(disk.files.raw), rule))
      ensures disk.states == old(disk.states)
      ensures disk.journal == old(disk.journal) +
        [Snapshot(old(disk.files).(items := disk.files.items), disk.states), Snapshot(disk.files, disk.states)]
      ensures removed == Removals(old(disk.files.items), rule) + Removals(old(disk.files.raw), rule)
    {
      var f, n := RewriteFile(disk.files.items, rule);
      disk.PutItems(f);
      var g, m := RewriteFile(disk.files.raw, rule);
      disk.PutRaw(g);
      removed := n + m;
    }

    method TruncateAfter(last: int) returns (removed: nat)
      modifies disk
      ensures disk.files ==
        Files(Rewritten(old(disk.files.items), UpTo(last)), Rewritten(old(disk.files.raw), UpTo(last)))
      ensures disk.states == old(disk.states)
      ensures disk.journal == old(disk.journal) +
        [Snapshot(old(disk.files).(items := disk.files.items), disk.states), Snapshot(disk.files, disk.states)]
      ensures removed == Removals(old(disk.files.items), UpTo(last)) + Removals(old(disk.files.raw), UpTo(last))
    {
      removed := RewriteBoth(UpTo(last));
    }

    method DeleteItems(ids: set<int>) returns (removed: nat)
      modifies disk
      ensures disk.states == old(disk.states)
      ensures ids == {} ==> removed == 0 && disk.files == old(disk.files) && disk.journal == old(disk.journal)
      ensures ids != {} ==>
        && disk.files ==
             Files(Rewritten(old(disk.files.items), Without(ids)), Rewritten(old(disk.files.raw), Without(ids)))
        && disk.journal == old(disk.journal) +
             [Snapshot(old(disk.files).(items := disk.files.items), disk.states), Snapshot(disk.files, disk.states)]
        && removed == Removals(old(disk.files.items), Without(ids)) + Removals(old(disk.files.raw), Without(ids))
    {
      if ids == {} {
        return 0;
      }
      removed := RewriteBoth(Without(ids));
    }
  }

  /**
   * `StateStore`: `memory` is the volatile half of the checkpoint, the disk holds the
   * durable one. The file is replaced atomically, so it only ever holds a state that was
   * saved as a whole.
   */
  class StateStore {
    const disk: Disk
    var memory: map<string, ListState>

    /** A new process sees exactly what the last save left. */
    constructor (disk: Disk)
      ensures this.disk == disk && memory == disk.states
    {
      this.disk, memory := disk, disk.states;
    }

    /** `setdefault`: asking creates the entry, in memory only. */
    method Get(guid: string) returns (entry: ListState)
      modifies this
      ensures entry == Lookup(old(memory), guid)
      ensures memory == old(memory)[guid := entry]
    {
      if guid !in memory {
        memory := memory[guid := FRESH];
      }
      entry := memory[guid];
      assert memory == old(memory)[guid := entry];
    }

    method Update(guid: string, entry: ListState)
      modifies this
      ensures memory == old(memory)[guid := entry]
    {
      memory := memory[guid := entry];
    }

    method Save()
      modifies disk
      ensures disk.states == memory && disk.files == old(disk.files)
      ensures disk.journal == old(disk.journal) + [Snapshot(disk.files, disk.states)]
    {
      disk.PutStates(memory);
    }
  }
}

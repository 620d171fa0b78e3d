/** A file behind asynchronous reads and seeks: the plain cursor every file
    handle of the repository promises to be. Pending answers, short reads and
    failures are chosen freely. */
module Files {
  import opened Basics

  class File {
    const content: seq<byte>
    var pos: nat
    // How often an answer was pending, and how often it was a failure.
    ghost var pendings: nat
    ghost var failures: nat

    constructor (content: seq<byte>)
      ensures this.content == content && pos == 0 && pendings == 0 && failures == 0
    {
      this.content, pos, pendings, failures := content, 0, 0, 0;
    }

    /** Exactly the last answer was added to the counts. */
    ghost predicate Counted<T>(r: Poll<T>, pendings0: nat, failures0: nat)
      reads this
    {
      && pendings == pendings0 + (if r.Pending? then 1 else 0)
      && failures == failures0 + (if r.Failed? then 1 else 0)
    }

    /** The bytes read into a buffer of `cap` bytes; none only at the end of
        the file or for an empty buffer. */
    method PollRead(cap: nat) returns (r: Poll<seq<byte>>)
      requires pos <= |content|
      modifies this
      ensures pos <= |content| && Counted(r, old(pendings), old(failures))
      ensures !r.Ready? ==> pos == old(pos)
      ensures r.Ready? ==> pos == old(pos) + |r.value| && r.value == content[old(pos)..pos]
      ensures r.Ready? ==> |r.value| <= cap
      ensures r.Ready? && r.value == [] ==> cap == 0 || pos == |content|
    {
      if * {
        pendings := pendings + 1;
        return Pending;
      }
      if * {
        failures := failures + 1;
        return Failed;
      }
      var most := Min(cap, |content| - pos);
      var n: nat :| n <= most && (n == 0 ==> most == 0);
      r := Ready(content[pos..pos + n]);
      pos := pos + n;
    }

    method PollSeek(start: nat) returns (r: Poll<()>)
      modifies this
      ensures (if r.Ready? then pos == start else pos == old(pos)) && Counted(r, old(pendings), old(failures))
    {
      if * {
        pendings := pendings + 1;
        return Pending;
      }
      if * {
        failures := failures + 1;
        return Failed;
      }
      pos := start;
      r := Ready(());
    }
  }
}

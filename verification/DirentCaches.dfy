/** The window a directory is read through (internal/sys/fs.go, DirentCache):
any position from the start of the last read on can be read again, and only
position 0 goes back further.
*/
module DirentCaches {
  import opened Results
  import opened Bytes

  datatype Dirent = Dirent(name: seq<byte>, ino: nat, filetype: nat)

  datatype Errno = ENOENT | EINVAL | EFAULT

  /** What is cached: nothing yet, or the entries from start up to count. eof is
      set once the directory is known to hold no more. */
  datatype Window = Unread | Window(start: nat, count: nat, eof: bool)

  /** A directory's entries, "." and ".." first, and a window on them. */
  ghost predicate WindowOk(all: seq<Dirent>, w: Window) {
    |all| >= 2 && (w.Window? ==> w.start <= w.count && 2 <= w.count <= |all| && (w.eof ==> w.count == |all|))
  }

  /** The entries from pos on, at most n of them. */
  function Slice(all: seq<Dirent>, pos: nat, n: nat): seq<Dirent>
    requires pos <= |all|
  {
    all[pos..Min(pos + n, |all|)]
  }

  /** The entries from a up to b. */
  function Part(all: seq<Dirent>, a: nat, b: nat): (r: seq<Dirent>)
    requires a <= b <= |all|
    ensures |r| == b - a
  {
    all[a..b]
  }

  lemma Pieces(all: seq<Dirent>, a: nat, b: nat, c: nat)
    requires a <= b <= c <= |all|
    ensures Part(all, a, b) + Part(all, b, c) == Part(all, a, c)
    ensures Part(all, a, c)[b - a..] == Part(all, b, c) && Part(all, a, c)[..b - a] == Part(all, a, b)
  {
  }

  /** What is cached from pos on, cut to n, is the listing's if it reaches that far. */
  lemma CutIsSlice(all: seq<Dirent>, pos: nat, count: nat, n: nat)
    requires pos <= count <= |all| && Min(pos + n, |all|) <= count
    ensures (if count - pos > n then Part(all, pos, count)[..n] else Part(all, pos, count)) == Slice(all, pos, n)
  {
    if count - pos > n {
      Pieces(all, pos, pos + n, count);
    }
  }

  /** The positions a read may start from. */
  predicate Readable(w: Window, pos: nat) {
    pos == 0 || (w.Window? && w.start <= pos <= w.count)
  }

  /** Reading from pos the entries the underlying directory lists one after
      another, as many as asked for unless it ends first. */
  class DirentCache {
    const all: seq<Dirent>
    // The entries cached; None before the first read and after a rewind.
    var dirents: Option<seq<Dirent>>
    var countRead: nat
    var eof: bool
    // How many entries have been read from the underlying directory.
    var position: nat

    constructor (all: seq<Dirent>)
      requires |all| >= 2
      ensures this.all == all && Valid() && View() == Unread
    {
      this.all := all;
      dirents, countRead, eof, position := None, 0, false, 0;
    }

    ghost function View(): Window
      reads this
    {
      if dirents.None? then Unread
      else Window(if countRead >= |dirents.value| then countRead - |dirents.value| else 0, countRead, eof)
    }

    ghost predicate Valid()
      reads this
    {
      && WindowOk(all, View())
      && (dirents.None? ==> countRead == 0 && position == 0)
      && (dirents.Some? ==>
            && |dirents.value| <= countRead && position == countRead - 2
            && dirents.value == Part(all, countRead - |dirents.value|, countRead))
    }

    /** The underlying directory's next n entries, or as many as are left. */
    method Readdir(n: nat) returns (more: seq<Dirent>)
      requires |all| >= 2 && position + 2 <= |all|
      modifies `position
      ensures position == old(position) + |more| && |more| == Min(n, |all| - 2 - old(position))
      ensures position + 2 <= |all| && more == Part(all, old(position) + 2, position + 2)
    {
      var k := Min(n, |all| - 2 - position);
      more := Part(all, position + 2, position + 2 + k);
      position := position + k;
    }

    /** The first read after opening or rewinding: the dot entries, then as
        many more as asked for. */
    method ReadFirst(n: nat)
      requires Valid() && dirents.None?
      modifies this
      ensures Valid() && View().Window? && View().start == 0
      ensures View().count == 2 || View().count == Min(n, |all|)
      ensures View().count == 2 ==> n <= 2 || |all| == 2
    {
      hide Part;
      dirents := Some(Part(all, 0, 2));
      countRead := 2;
      eof := false;
      if n > 2 {
        var more := Readdir(n - 2);
        if |more| > 0 {
          eof := |more| < n - 2;
          dirents := Some(Part(all, 0, 2) + more);
          countRead := countRead + |more|;
          Pieces(all, 0, 2, countRead);
        }
      }
    }

    /** A read that goes on from a position in the window. */
    method ReadOn(pos: nat, n: nat)
      requires Valid() && View().Window? && View().start <= pos <= View().count
      modifies this
      ensures Valid() && View().Window? && View().start == pos
      ensures if old(View().count) >= pos + n then View().count == old(View().count) else View().count == Min(pos + n, |all|)
    {
      hide Part;
      var cacheStart := countRead - |dirents.value|;
      Pieces(all, cacheStart, pos, countRead);
      dirents := Some(dirents.value[pos - cacheStart..]);
      if n > |dirents.value| && !eof {
        var want := n - |dirents.value|;
        var more := Readdir(want);
        if |more| > 0 {
          eof := |more| < want;
          dirents := Some(dirents.value + more);
          Pieces(all, pos, countRead, countRead + |more|);
          countRead := countRead + |more|;
        }
      }
    }

    /** Up to n entries from pos; succeeds exactly where the window allows, and
        then gives the listing itself and leaves the window starting at pos. */
    method Read(pos: nat, n: nat) returns (r: Result<seq<Dirent>, Errno>)
      requires Valid()
      modifies this
      ensures Valid()
      ensures r.Ok? <==> pos <= old(countRead) && (n == 0 || Readable(old(View()), pos))
      ensures r.Err? ==> r.error == ENOENT && View() == old(View())
      ensures r.Ok? && n == 0 ==> r.value == []
      ensures r.Ok? && n > 0 ==>
                && pos <= |all| && r.value == Slice(all, pos, n)
                && View().Window? && View().start == pos && View().count >= pos + |r.value|
    {
      hide Part, Slice;
      if pos > countRead {
        return Err(ENOENT);
      }
      if pos == 0 && dirents.Some? {
        position := 0;
        dirents := None;
        countRead := 0;
      }
      if n == 0 {
        return Ok([]);
      }
      if dirents.None? {
        ReadFirst(n);
      } else {
        if pos < countRead - |dirents.value| {
          return Err(ENOENT);
        }
        ReadOn(pos, n);
      }
      CutIsSlice(all, pos, countRead, n);
      r := Ok(if |dirents.value| > n then dirents.value[..n] else dirents.value);
    }
  }
}

/** What a reader of a file has put into a buffer, against the contents of the file: a function
    that gives the byte at a position, or -1 where the file has none. */
module Content {
  import opened Disk

  /** `s` is what the file has from byte `pos` on. */
  predicate SliceOf(content: nat -> int, pos: nat, s: seq<byte>) {
    forall i :: 0 <= i < |s| ==> content(pos + i) == s[i]
  }

  lemma {:induction false} SliceJoin(content: nat -> int, pos: nat, s: seq<byte>, t: seq<byte>)
    requires SliceOf(content, pos, s) && SliceOf(content, pos + |s|, t)
    ensures SliceOf(content, pos, s + t)
  {
    forall i | 0 <= i < |s + t| ensures content(pos + i) == (s + t)[i] {
      if i >= |s| {
        assert content(pos + |s| + (i - |s|)) == t[i - |s|];
      }
    }
  }

  /** A piece of the file has been put into the buffer behind what had been got before. */
  lemma {:induction false} Extend(content: nat -> int, buf: array<byte>, at: nat, pos: nat, got: seq<byte>, mid: nat, next: nat,
      piece: seq<byte>, end: nat)
    requires mid == at + |got| && next == pos + |got| && end == mid + |piece| <= buf.Length
    requires buf[at..mid] == got && buf[mid..end] == piece
    requires SliceOf(content, pos, got) && SliceOf(content, next, piece)
    ensures SliceOf(content, pos, buf[at..end])
  {
    Joined(buf, at, got, mid, piece, end);
    SliceJoin(content, pos, got, piece);
  }

  /** What had been got before is still there, if none of its bytes has changed. */
  lemma {:induction false} StillThere(buf: array<byte>, at: nat, got: seq<byte>)
    requires at + |got| <= buf.Length && forall k :: 0 <= k < |got| ==> buf[at + k] == got[k]
    ensures buf[at..at + |got|] == got
  {
  }

  /** With what has been got behind it. */
  lemma {:induction false} Joined(buf: array<byte>, at: nat, got: seq<byte>, next: nat, more: seq<byte>, end: nat)
    requires next == at + |got| && end == next + |more| <= buf.Length
    requires buf[at..next] == got && buf[next..end] == more
    ensures buf[at..end] == got + more
  {
  }
}

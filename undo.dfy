/** The bounded undo stack as values: a sequence of snapshots, oldest first,
    never longer than the depth limit and never empty once seeded. */
module UndoStack {

  /** What `undo_save` leaves: the snapshot pushed on top and, if the stack
      then holds more than `depth` entries, the oldest one (index 0) removed. */
  function Pushed<T>(stack: seq<T>, snapshot: T, depth: nat): (r: seq<T>)
    requires 1 <= depth && |stack| <= depth
    ensures 1 <= |r| <= depth
    ensures r[|r| - 1] == snapshot
    ensures |stack| < depth ==> r == stack + [snapshot]
    ensures |stack| == depth ==> r == stack[1..] + [snapshot]
  {
    var grown := stack + [snapshot];
    if |grown| > depth then grown[1..] else grown
  }

  /** What `undo` leaves, as (image, stack): with more than one entry the
      image becomes the top entry and the top is popped; otherwise nothing
      changes. */
  function Undone<T>(stack: seq<T>, image: T): (r: (T, seq<T>))
    ensures |stack| > 1 ==> r.0 == stack[|stack| - 1] && r.1 + [r.0] == stack
    ensures |stack| <= 1 ==> r == (image, stack)
    ensures |stack| >= 1 ==> |r.1| >= 1
  {
    var l := |stack|;
    if l > 1 then (stack[l - 1], stack[..l - 1]) else (image, stack)
  }

  /** A save followed by an undo gives back the saved image, and the stack it
      started from unless the save evicted its oldest entry. */
  lemma UndoAfterSave<T>(stack: seq<T>, saved: T, edited: T, depth: nat)
    requires 2 <= depth && 1 <= |stack| <= depth
    ensures Undone(Pushed(stack, saved, depth), edited).0 == saved
    ensures Undone(Pushed(stack, saved, depth), edited).1
            == if |stack| < depth then stack else stack[1..]
  {
    var pushed := Pushed(stack, saved, depth);
    assert |pushed| > 1;
    if |stack| < depth {
      assert pushed[..|pushed| - 1] == stack;
    } else {
      assert pushed[..|pushed| - 1] == stack[1..];
    }
  }

  /** The stack after a run of saves, one per snapshot in order. */
  function PushedAll<T>(stack: seq<T>, snapshots: seq<T>, depth: nat): (r: seq<T>)
    requires 1 <= depth && |stack| <= depth
    ensures |r| <= depth
    decreases |snapshots|
  {
    if snapshots == [] then stack
    else PushedAll(Pushed(stack, snapshots[0], depth), snapshots[1..], depth)
  }

  /** The newest `depth` entries of a sequence. */
  function Newest<T>(s: seq<T>, depth: nat): (r: seq<T>)
    ensures |r| == if |s| <= depth then |s| else depth
  {
    if |s| <= depth then s else s[|s| - depth..]
  }

  /** After any run of saves exactly the newest `depth` snapshots of the whole
      history are kept, in order: older ones are unreachable by undo. */
  lemma {:induction false} PushedAllKeepsNewest<T>(stack: seq<T>, snapshots: seq<T>, depth: nat)
    requires 1 <= depth && |stack| <= depth
    ensures PushedAll(stack, snapshots, depth) == Newest(stack + snapshots, depth)
    decreases |snapshots|
  {
    if snapshots != [] {
      var next := Pushed(stack, snapshots[0], depth);
      PushedIsNewest(stack, snapshots[0], depth);
      PushedAllKeepsNewest(next, snapshots[1..], depth);
      NewestOfNewest(stack + [snapshots[0]], snapshots[1..], depth);
      assert stack + [snapshots[0]] + snapshots[1..] == stack + snapshots;
    }
  }

  /** One save keeps the newest `depth` entries of the stack and the snapshot. */
  lemma PushedIsNewest<T>(stack: seq<T>, snapshot: T, depth: nat)
    requires 1 <= depth && |stack| <= depth
    ensures Pushed(stack, snapshot, depth) == Newest(stack + [snapshot], depth)
  {
  }

  lemma NewestOfNewest<T>(s: seq<T>, t: seq<T>, depth: nat)
    requires 1 <= depth
    ensures Newest(Newest(s, depth) + t, depth) == Newest(s + t, depth)
  {
    if |s| > depth {
      var n := Newest(s, depth);
      assert (n + t)[|n + t| - depth..] == (s + t)[|s + t| - depth..];
    }
  }

  /** The (image, stack) after `n` undos in a row. */
  function UndoneTimes<T>(stack: seq<T>, image: T, n: nat): (r: (T, seq<T>))
    decreases n
  {
    if n == 0 then (image, stack)
    else var u := Undone(stack, image); UndoneTimes(u.1, u.0, n - 1)
  }

  /** Undoing more often than there are saved states never empties the stack:
      it stops at the seed entry with the image at the oldest entry above it. */
  lemma {:induction false} UndoneTimesStops<T>(stack: seq<T>, image: T, n: nat)
    requires |stack| >= 2 && n >= |stack| - 1
    ensures UndoneTimes(stack, image, n) == (stack[1], stack[..1])
    decreases n
  {
    var u := Undone(stack, image);
    if |stack| == 2 {
      UndoneTimesIdle(u.1, u.0, n - 1);
    } else {
      UndoneTimesStops(u.1, u.0, n - 1);
      assert u.1[1] == stack[1] && u.1[..1] == stack[..1];
    }
  }

  /** With one entry left, undo does nothing however often it is called. */
  lemma {:induction false} UndoneTimesIdle<T>(stack: seq<T>, image: T, n: nat)
    requires |stack| == 1
    ensures UndoneTimes(stack, image, n) == (image, stack)
    decreases n
  {
    if n > 0 {
      UndoneTimesIdle(stack, image, n - 1);
    }
  }
}

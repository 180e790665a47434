/**
 * The notification stack of the applications page: a new notification goes
 * on top and only the four most recent are kept; each one is dismissed by
 * its id when its timer fires.
 */
module Toasts {
  import opened Wrappers
  import opened Text

  datatype Kind = Success | Error | Info

  /** A notification; the id is unique per notification. */
  datatype Toast = Toast(id: string, kind: Kind, title: string, message: Option<string>)

  /** At most this many notifications are shown. */
  const MaxToasts: nat := 4

  /** The stack after t is pushed on prev: t first, then the newest of prev, four at most. */
  function Pushed(prev: seq<Toast>, t: Toast): seq<Toast> {
    var all := [t] + prev;
    if |all| <= MaxToasts then all else all[..MaxToasts]
  }

  /** The stack without the notification whose id is id. */
  function Without(toasts: seq<Toast>, id: string): (r: seq<Toast>)
    ensures forall x :: x in r <==> x in toasts && x.id != id
    ensures |r| <= |toasts|
  {
    if toasts == [] then []
    else (if toasts[0].id != id then [toasts[0]] else []) + Without(toasts[1..], id)
  }

  /**
   * A pushed notification is on top, the older ones follow in their order,
   * the oldest drops off beyond four, and the stack never grows past four.
   */
  lemma PushedKeepsNewestFour(prev: seq<Toast>, t: Toast)
    ensures var r := Pushed(prev, t);
      && |r| == (if |prev| < MaxToasts then |prev| + 1 else MaxToasts)
      && r[0] == t
      && r[1..] <= prev
      && (|prev| < MaxToasts ==> r[1..] == prev)
  {
    var all := [t] + prev;
    assert all[1..] == prev;
  }

  /** Dismissing a notification that was just pushed leaves the older ones that were kept. */
  lemma {:induction false} DismissAfterPush(prev: seq<Toast>, t: Toast)
    requires forall x :: x in prev ==> x.id != t.id
    ensures Without(Pushed(prev, t), t.id) == Pushed(prev, t)[1..]
  {
    var r := Pushed(prev, t);
    PushedKeepsNewestFour(prev, t);
    assert r == [t] + r[1..];
    assert forall x :: x in r[1..] ==> x in prev;
    WithoutAbsent(r[1..], t.id);
  }

  lemma {:induction false} WithoutAbsent(toasts: seq<Toast>, id: string)
    requires forall x :: x in toasts ==> x.id != id
    ensures Without(toasts, id) == toasts
  {
    if toasts != [] {
      WithoutAbsent(toasts[1..], id);
      assert [toasts[0]] + toasts[1..] == toasts;
    }
  }

  /** Dismissing keeps the remaining notifications in the order they were shown. */
  lemma {:induction false} WithoutIsSubsequence(toasts: seq<Toast>, id: string)
    ensures IsSubsequence(Without(toasts, id), toasts)
  {
    if toasts == [] {
    } else {
      WithoutIsSubsequence(toasts[1..], id);
      var rest := Without(toasts[1..], id);
      SubsequenceExtend(toasts[0], rest, toasts[1..]);
      assert [toasts[0]] + toasts[1..] == toasts;
      if toasts[0].id != id {
        assert Without(toasts, id) == [toasts[0]] + rest;
      } else {
        assert Without(toasts, id) == rest;
      }
    }
  }

  /** Dismissing from two stacked parts dismisses from each part, in place. */
  lemma {:induction false} WithoutAppend(a: seq<Toast>, b: seq<Toast>, id: string)
    ensures Without(a + b, id) == Without(a, id) + Without(b, id)
  {
    if a == [] {
      assert a + b == b;
    } else {
      var x, rest := a[0], a[1..];
      var h := if x.id != id then [x] else [];
      assert Without(a + b, id) == h + (Without(rest, id) + Without(b, id)) by {
        assert a + b == [x] + (rest + b);
        WithoutCons(x, rest + b, id);
        WithoutAppend(rest, b, id);
      }
      assert Without(a, id) == h + Without(rest, id) by {
        assert a == [x] + rest;
        WithoutCons(x, rest, id);
      }
      ConcatAssociative(h, Without(rest, id), Without(b, id));
    }
  }

  lemma WithoutCons(x: Toast, rest: seq<Toast>, id: string)
    ensures Without([x] + rest, id) == (if x.id != id then [x] else []) + Without(rest, id)
  {
    assert ([x] + rest)[1..] == rest;
  }

  /**
   * The timer of the oldest notification, the one at the bottom, removes just
   * that one and leaves the newer ones above it as they were.
   */
  lemma DismissOldest(toasts: seq<Toast>)
    requires toasts != []
    requires forall i :: 0 <= i < |toasts| - 1 ==> toasts[i].id != toasts[|toasts| - 1].id
    ensures Without(toasts, toasts[|toasts| - 1].id) == toasts[..|toasts| - 1]
  {
    var newer, oldest := toasts[..|toasts| - 1], toasts[|toasts| - 1];
    assert forall i :: 0 <= i < |newer| ==> newer[i].id != oldest.id by {
      forall i | 0 <= i < |newer| ensures newer[i].id != oldest.id {
        assert newer[i] == toasts[i];
      }
    }
    WithoutBelow(newer, oldest);
    assert toasts == newer + [oldest] by {
      SplitLast(toasts);
    }
  }

  lemma WithoutBelow(newer: seq<Toast>, oldest: Toast)
    requires forall i :: 0 <= i < |newer| ==> newer[i].id != oldest.id
    ensures Without(newer + [oldest], oldest.id) == newer
  {
    WithoutAbsent(newer, oldest.id);
    assert Without([oldest], oldest.id) == [] by {
      WithoutCons(oldest, [], oldest.id);
      assert [oldest] + [] == [oldest];
    }
    WithoutAppend(newer, [oldest], oldest.id);
    assert newer + [] == newer;
  }

  /** The notifications currently shown, newest first. */
  class ToastStack {
    var toasts: seq<Toast>

    ghost predicate Valid()
      reads this
    {
      |toasts| <= MaxToasts
    }

    constructor ()
      ensures Valid() && toasts == []
    {
      toasts := [];
    }

    /** pushToast: the id stands for the one made from the clock and a random number. */
    method Push(id: string, kind: Kind, title: string, message: Option<string>)
      requires Valid()
      modifies this
      ensures Valid()
      ensures toasts == Pushed(old(toasts), Toast(id, kind, title, message))
    {
      var t := Toast(id, kind, title, message);
      PushedKeepsNewestFour(toasts, t);
      toasts := Pushed(toasts, t);
    }

    /** The timer callback of pushToast: removes the notification with this id. */
    method Dismiss(id: string)
      requires Valid()
      modifies this
      ensures Valid()
      ensures toasts == Without(old(toasts), id)
    {
      toasts := Without(toasts, id);
    }
  }
}

/**
 * The notification queue (`useToastStore`): an ordered list of toasts. A toast
 * is appended with an id made from the clock reading in milliseconds, and
 * removed by id. The clock is a parameter (`now`).
 */
module ToastStore {
  import opened Common
  import JsArray

  datatype ToastType = Success | Error | Info | Warning

  /** `ToastItem`; `type` and `duration` are optional properties. */
  datatype ToastItem = ToastItem(
    id: string,
    message: string,
    kind: Option<ToastType>,
    duration: Option<int>)

  /** What callers pass to `addToast`: a toast without its id. */
  datatype ToastInput = ToastInput(
    message: string,
    kind: Option<ToastType>,
    duration: Option<int>)

  /** The character of a decimal digit. */
  function Digit(d: nat): (c: char)
    requires d < 10
    ensures '0' <= c <= '9'
  {
    (48 + d) as char
  }

  /**
   * `n.toString()` for a non-negative integer `n` below 10^21 (the clock's
   * milliseconds are far below that): its decimal digits, without leading zeros.
   */
  function DecimalString(n: nat): (r: string)
    ensures |r| >= 1
    ensures forall i :: 0 <= i < |r| ==> '0' <= r[i] <= '9'
    ensures r[0] == '0' <==> n == 0
    decreases n
  {
    if n < 10 then [Digit(n)] else DecimalString(n / 10) + [Digit(n % 10)]
  }

  /** Different clock readings give different ids. */
  lemma {:induction false} DecimalStringInjective(n: nat, m: nat)
    requires DecimalString(n) == DecimalString(m)
    ensures n == m
    decreases n
  {
    var sn, sm := DecimalString(n), DecimalString(m);
    if n < 10 && m < 10 {
      assert sn[0] == sm[0];
    } else if n < 10 || m < 10 {
      // one string has a single digit, the other at least two
      assert false;
    } else {
      assert sn[..|sn| - 1] == DecimalString(n / 10);
      assert sm[..|sm| - 1] == DecimalString(m / 10);
      assert sn[|sn| - 1] == sm[|sm| - 1];
      DecimalStringInjective(n / 10, m / 10);
    }
  }

  /** `{ id: Date.now().toString(), ...toast }` when the clock reads `now`. */
  function Stamped(t: ToastInput, now: nat): (r: ToastItem)
    ensures r.id == DecimalString(now)
    ensures |r.id| >= 1 && forall i :: 0 <= i < |r.id| ==> '0' <= r.id[i] <= '9'
    ensures r.message == t.message && r.kind == t.kind && r.duration == t.duration
  {
    ToastItem(DecimalString(now), t.message, t.kind, t.duration)
  }

  predicate HasToastId(s: seq<ToastItem>, id: string) {
    exists i :: 0 <= i < |s| && s[i].id == id
  }

  /** The `filter` callback of `removeToast`. */
  function IdIsNot(id: string): ToastItem -> bool {
    (t: ToastItem) => t.id != id
  }

  /** The list `removeToast(id)` leaves. */
  function WithoutToast(s: seq<ToastItem>, id: string): (r: seq<ToastItem>)
    ensures |r| <= |s|
    ensures forall i :: 0 <= i < |r| ==> r[i].id != id
  {
    JsArray.Filter(s, IdIsNot(id))
  }

  /** `removeToast(id)` keeps exactly the toasts whose id differs from `id`. */
  lemma RemoveKeepsExactlyOthers(s: seq<ToastItem>, id: string, t: ToastItem)
    ensures t in WithoutToast(s, id) <==> t in s && t.id != id
  {
    JsArray.FilterMembers(s, IdIsNot(id), t);
  }

  /** `removeToast` keeps the remaining toasts in their order. */
  lemma RemoveKeepsOrder(a: seq<ToastItem>, b: seq<ToastItem>, id: string)
    ensures WithoutToast(a + b, id) == WithoutToast(a, id) + WithoutToast(b, id)
  {
    JsArray.FilterConcat(a, b, IdIsNot(id));
  }

  /** `removeToast` of an id no toast has leaves the list as it was. */
  lemma RemoveAbsent(s: seq<ToastItem>, id: string)
    requires !HasToastId(s, id)
    ensures WithoutToast(s, id) == s
  {
    JsArray.FilterKeepsAll(s, IdIsNot(id));
  }

  /** Removing an id twice is removing it once. */
  lemma RemoveIdempotent(s: seq<ToastItem>, id: string)
    ensures WithoutToast(WithoutToast(s, id), id) == WithoutToast(s, id)
  {
    JsArray.FilterIdempotent(s, IdIsNot(id));
  }

  /** With a clock reading no queued toast was stamped with, add-then-remove restores the queue. */
  lemma AddThenRemoveRestores(s: seq<ToastItem>, t: ToastInput, now: nat)
    requires !HasToastId(s, DecimalString(now))
    ensures WithoutToast(s + [Stamped(t, now)], DecimalString(now)) == s
  {
    var id := DecimalString(now);
    RemoveKeepsOrder(s, [Stamped(t, now)], id);
    RemoveAbsent(s, id);
    JsArray.FilterCons(Stamped(t, now), [], IdIsNot(id));
  }

  /**
   * Ids are not unique: two toasts added at the same clock reading share an
   * id, and removing that id drops both of them.
   */
  lemma SameClockCollides(s: seq<ToastItem>, a: ToastInput, b: ToastInput, now: nat)
    ensures Stamped(a, now).id == Stamped(b, now).id
    ensures WithoutToast(s + [Stamped(a, now), Stamped(b, now)], DecimalString(now))
         == WithoutToast(s, DecimalString(now))
  {
    var id := DecimalString(now);
    var added := [Stamped(a, now), Stamped(b, now)];
    RemoveKeepsOrder(s, added, id);
    JsArray.FilterCons(Stamped(a, now), [Stamped(b, now)], IdIsNot(id));
    JsArray.FilterCons(Stamped(b, now), [], IdIsNot(id));
  }

  /**
   * If every queued toast was stamped at an earlier clock reading, the next
   * one gets an id no queued toast has.
   */
  lemma EarlierStampsLeaveIdFresh(s: seq<ToastItem>, now: nat)
    requires forall i :: 0 <= i < |s| ==> exists k: nat :: k < now && s[i].id == DecimalString(k)
    ensures !HasToastId(s, DecimalString(now))
  {
    forall i | 0 <= i < |s|
      ensures s[i].id != DecimalString(now)
    {
      var k: nat :| k < now && s[i].id == DecimalString(k);
      if s[i].id == DecimalString(now) {
        DecimalStringInjective(k, now);
      }
    }
  }

  /** The queue (`useToastStore`). */
  class Store {
    var toasts: seq<ToastItem>

    /** The queue starts empty. */
    constructor()
      ensures toasts == []
    {
      toasts := [];
    }

    /** `addToast(toast)` when the clock reads `now`. */
    method AddToast(t: ToastInput, now: nat)
      modifies this
      ensures toasts == old(toasts) + [Stamped(t, now)]
    {
      toasts := toasts + [Stamped(t, now)];
    }

    method RemoveToast(id: string)
      modifies this
      ensures toasts == WithoutToast(old(toasts), id)
    {
      toasts := WithoutToast(toasts, id);
    }
  }
}

/**
 The LinkedHashMap of windows in access order, with its eviction and its sweep: the
 imperative form of `LruTable`. Both detectors own one.
 */
module WindowTables {
  import opened Collections
  import opened Windows
  import LruTable
  import Recency

  class WindowTable<E> {
    const limits: LruTable.Limits
    /** The entries, and their keys from the eldest to the most recently accessed. */
    var windows: map<LruTable.Key, Window>
    var order: seq<LruTable.Key>
    var processed: nat
    /** The calls so far, and the table they amount to. */
    ghost var calls: seq<LruTable.Call<E>>
    ghost var state: LruTable.State<E>

    constructor (limits: LruTable.Limits)
      requires limits.max >= 1
      ensures Valid() && calls == [] && windows == map[] && this.limits == limits
    {
      this.limits := limits;
      windows, order, processed, calls, state := map[], [], 0, [], LruTable.Start();
    }

    /** Keys, access order and call count are those of the state. */
    ghost predicate Shape()
      reads this
    {
      && windows.Keys == state.traces.Keys == state.lastSeen.Keys
      && order == state.order
      && forall k :: k in windows ==> windows[k].key == k
    }

    /** Every window remembers when its key was last processed. */
    ghost predicate Dated()
      reads `windows, `state, windows.Values`lastProcessedMillis
    {
      forall k :: k in windows ==> k in state.lastSeen && windows[k].lastProcessedMillis == state.lastSeen[k]
    }

    ghost predicate Valid()
      reads this, windows.Values`lastProcessedMillis
    {
      limits.max >= 1 && Shape() && Dated() && state == LruTable.Run(calls, limits) && state.calls == processed
    }

    /** `computeIfAbsent`: finds or creates the window of `key`, evicting the eldest on overflow. */
    method WindowFor(key: LruTable.Key, ghost event: E, ghost now: int) returns (w: Window)
      requires Shape() && LruTable.Admissible(order, key, key in windows, limits)
      modifies this`windows, this`order, this`state, this`calls
      ensures if key in old(windows) then w == old(windows)[key] else fresh(w) && w.Blank()
      ensures Shape() && key in windows && windows[key] == w && state.calls == old(state).calls + 1
      ensures state == LruTable.Touch(old(state), LruTable.Call(key, event, now), limits)
      ensures calls == old(calls) + [LruTable.Call(key, event, now)]
      ensures forall k :: k in windows && k != key ==> k in old(windows) && windows[k] == old(windows)[k]
    {
      hide Recency.Refreshed, LruTable.Touch, Window.Blank;
      ghost var call := LruTable.Call(key, event, now);
      LruTable.TouchKeys(state, call, limits);
      hide LruTable.Evicted, LruTable.Accessed;
      if key in windows {
        w := windows[key];
        order := Recency.Refreshed(order, key);
        LruTable.NoEviction(state.order, key, limits);
      } else {
        w := Insert(key);
      }
      state := LruTable.Touch(state, call, limits);
      calls := calls + [call];
    }

    method Insert(key: LruTable.Key) returns (w: Window)
      requires key !in windows && LruTable.Admissible(order, key, false, limits)
      modifies this`windows, this`order
      ensures fresh(w) && w.key == key && w.Blank()
      ensures windows == (old(windows) - LruTable.Evicted(old(order), key, false, limits))[key := w]
      ensures order == LruTable.Accessed(old(order), key, false, limits)
    {
      hide Recency.Refreshed, Window.Blank;
      w := new Window(key);
      windows, order := windows[key := w], order + [key];
      if |order| > limits.max {
        assert windows - {order[0]} == (old(windows) - {order[0]})[key := w];
        windows, order := windows - {order[0]}, order[1..];
      }
    }

    /** `entrySet().removeIf(...)`, on every 1000th call. */
    method Sweep(now: int)
      requires Shape() && Dated() && state.calls == processed + 1
      modifies this`windows, this`order, this`state, this`processed
      ensures Shape() && Dated() && state.calls == processed
      ensures state == LruTable.Sweep(old(state), now, limits)
      ensures forall k :: k in windows ==>
                && k in old(windows) && windows[k] == old(windows)[k]
                && k in state.traces && state.traces[k] == old(state).traces[k]
    {
      hide Drop;
      processed := processed + 1;
      if processed % LruTable.SWEEP_EVERY == 0 {
        var inactiveBefore := now - limits.grace;
        var idle := set k | k in windows && windows[k].lastProcessedMillis < inactiveBefore;
        assert idle == LruTable.Idle(state.lastSeen, inactiveBefore);
        windows, order := windows - idle, Drop(order, idle);
      }
      state := LruTable.Sweep(state, now, limits);
    }
  }
}

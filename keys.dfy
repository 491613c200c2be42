/** Held keys: the set of keys pressed and not yet released, folded from
    the stream of key events with `including` and `excluding`, as the
    `handleInput` reducers of Asteroids and Dinosaur do. */
module Keys {
  import opened Helpers

  /** A key event: `kind` is the DOM event type, "keydown" or another. */
  datatype KeyEvent = KeyEvent(key: string, kind: string)

  /** The set of held keys after a stream of key events: a key goes in on
      "keydown" and out on any other event (the accumulator of
      `handleInput`'s `scan`). */
  function Held(events: seq<KeyEvent>): (r: set<string>)
    ensures forall key :: key in r ==> exists i :: 0 <= i < |events| && events[i] == KeyEvent(key, "keydown")
  {
    if events == [] then {}
    else
      var e := events[|events| - 1];
      var before := Held(events[..|events| - 1]);
      if e.kind == "keydown" then Including(before, e.key) else Excluding(before, e.key)
  }

  /** Event `i` presses `key` and no later event concerns `key`. */
  predicate LatestIsDown(events: seq<KeyEvent>, key: string, i: int) {
    && 0 <= i < |events| && events[i] == KeyEvent(key, "keydown")
    && forall j :: i < j < |events| ==> events[j].key != key
  }

  /** A key is held exactly when its latest event is a "keydown". */
  lemma {:induction false} HeldIffLastDown(events: seq<KeyEvent>, key: string)
    ensures key in Held(events) <==> exists i :: LatestIsDown(events, key, i)
  {
    if events != [] {
      var n := |events| - 1;
      var init := events[..n];
      HeldIffLastDown(init, key);
      if events[n].key == key {
        if events[n].kind == "keydown" {
          assert LatestIsDown(events, key, n);
        } else {
          assert key !in Held(events);
          assert forall i :: 0 <= i < n ==> !LatestIsDown(events, key, i);
        }
      } else {
        if key in Held(init) {
          var i :| LatestIsDown(init, key, i);
          assert LatestIsDown(events, key, i);
        }
        if exists i :: LatestIsDown(events, key, i) {
          var i :| LatestIsDown(events, key, i);
          assert LatestIsDown(init, key, i);
        }
      }
    }
  }

  /** The held set, for every key at once. */
  lemma HeldExactly(events: seq<KeyEvent>)
    ensures forall k :: k in Held(events) <==> exists i :: LatestIsDown(events, k, i)
  {
    forall k {
      HeldIffLastDown(events, k);
    }
  }
}

// The radio panel's message log: a new message goes in front and only the
// newest three are kept.

module Radio {

  datatype Sender = DjGemini | PoliceDispatch

  /** A radio line; `id` is the millisecond clock reading when it was added. */
  datatype RadioMessage = RadioMessage(text: string, sender: Sender, id: int)

  const Capacity := 3

  function Min(a: int, b: int): int {
    if a <= b then a else b
  }

  /**
   * Adding a message at clock reading `now`: the new message first, then
   * the previous log, cut to three entries.
   */
  function AddMessage(prev: seq<RadioMessage>, text: string, sender: Sender, now: int): (r: seq<RadioMessage>)
    ensures |r| == Min(|prev| + 1, Capacity)
    ensures r[0] == RadioMessage(text, sender, now)
    ensures r[1..] == prev[..|r| - 1]
  {
    var all := [RadioMessage(text, sender, now)] + prev;
    if |all| <= 3 then all else all[..3]
  }

  /** The log after the messages of `history` were added, oldest first, to an empty log. */
  function Feed(history: seq<RadioMessage>): seq<RadioMessage> {
    if history == [] then []
    else
      var m := history[|history| - 1];
      AddMessage(Feed(history[..|history| - 1]), m.text, m.sender, m.id)
  }

  /** The log is the newest three messages of the history, newest first. */
  lemma {:induction false} FeedKeepsNewest(history: seq<RadioMessage>)
    ensures |Feed(history)| == Min(|history|, Capacity)
    ensures forall i :: 0 <= i < |Feed(history)| ==> Feed(history)[i] == history[|history| - 1 - i]
  {
    if history != [] {
      var n := |history|;
      var older := history[..n - 1];
      FeedKeepsNewest(older);
      var r := Feed(history);
      forall i | 0 <= i < |r| ensures r[i] == history[n - 1 - i] {
        if i > 0 {
          assert r[i] == r[1..][i - 1];
          assert r[i] == Feed(older)[i - 1];
        }
      }
    }
  }
}

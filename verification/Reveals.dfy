/** Secrets shown once (src/shell/state.rs): a POST stashes a secret under a nonce
    and the page that follows takes it. The map is swept only when it grows, and
    answers as if nothing were ever swept.
 */
module Reveals {
  import opened Text

  const REVEAL_TTL_MS := 60000

  datatype Event = Stashed(nonce: string, secret: string, at: int) | Taken(nonce: string, at: int)

  datatype Entry = Entry(secret: string, at: int)

  /** The entry for a nonce after everything that happened. A sweep, which comes
      with every stash, drops what is too old then. */
  function Kept(history: seq<Event>, nonce: string): Option<Entry> {
    if history == [] then None else
      var before := Kept(history[..|history| - 1], nonce);
      match history[|history| - 1]
      case Stashed(n, secret, at) =>
        if n == nonce then Some(Entry(secret, at))
        else if before.Some? && at - before.value.at >= REVEAL_TTL_MS then None
        else before
      case Taken(n, _) => if n == nonce then None else before
  }

  /** What a take at `now` answers, given the entry. */
  function Answer(entry: Option<Entry>, now: int): Option<string> {
    if entry.Some? && now - entry.value.at < REVEAL_TTL_MS then Some(entry.value.secret) else None
  }

  function Lookup(held: map<string, Entry>, nonce: string): Option<Entry> {
    if nonce in held then Some(held[nonce]) else None
  }

  /** `Reveals`. The nonce that `stash` generates and the clock are parameters. */
  class Reveals {
    var held: map<string, Entry>
    ghost var history: seq<Event>

    ghost predicate Valid()
      reads this
    {
      forall n :: Lookup(held, n) == Kept(history, n)
    }

    constructor ()
      ensures Valid() && history == []
    {
      held := map[];
      history := [];
    }

    method Stash(secret: string, nonce: string, now: int)
      requires Valid()
      modifies this
      ensures Valid() && history == old(history) + [Stashed(nonce, secret, now)]
      ensures forall n :: n in held ==> now - held[n].at < REVEAL_TTL_MS
      ensures nonce in held && held[nonce] == Entry(secret, now)
    {
      held := map n | n in held && now - held[n].at < REVEAL_TTL_MS :: held[n];
      held := held[nonce := Entry(secret, now)];
      history := history + [Stashed(nonce, secret, now)];
      assert history[..|history| - 1] == old(history);
    }

    method Take(nonce: string, now: int) returns (secret: Option<string>)
      requires Valid()
      modifies this
      ensures Valid() && history == old(history) + [Taken(nonce, now)]
      ensures secret == Answer(Kept(old(history), nonce), now)
      ensures nonce !in held
    {
      assert Lookup(held, nonce) == Kept(history, nonce);
      secret := None;
      if nonce in held {
        var entry := held[nonce];
        held := held - {nonce};
        if now - entry.at < REVEAL_TTL_MS {
          secret := Some(entry.secret);
        }
      }
      history := history + [Taken(nonce, now)];
      assert history[..|history| - 1] == old(history);
    }
  }

  // ---------- against a log that is never swept ----------

  /** The entry for a nonce in a log of which nothing is ever dropped: what the
      last event that names the nonce left. */
  function Logged(history: seq<Event>, nonce: string): Option<Entry> {
    if history == [] then None else
      var last := history[|history| - 1];
      if last.nonce != nonce then Logged(history[..|history| - 1], nonce)
      else if last.Stashed? then Some(Entry(last.secret, last.at))
      else None
  }

  /** The clock never goes back, up to `now`. */
  predicate Ordered(history: seq<Event>, now: int) {
    history == []
    || (history[|history| - 1].at <= now && Ordered(history[..|history| - 1], history[|history| - 1].at))
  }

  /** A sweep drops only entries that are too old for every later take. */
  lemma {:induction false} KeptOrTooOld(history: seq<Event>, nonce: string, now: int)
    requires Ordered(history, now)
    ensures Kept(history, nonce) == Logged(history, nonce)
            || (Kept(history, nonce) == None && Logged(history, nonce).Some?
                && now - Logged(history, nonce).value.at >= 60000)
  {
    if history != [] {
      KeptOrTooOld(history[..|history| - 1], nonce, history[|history| - 1].at);
    }
  }

  predicate NamesNot(history: seq<Event>, nonce: string) {
    forall i :: 0 <= i < |history| ==> history[i].nonce != nonce
  }

  /** A stash came that was a minute or more after the nonce's entry, and nothing has
      named the nonce since the entry was made. */
  ghost predicate Dropped(history: seq<Event>, nonce: string) {
    exists i :: && 0 <= i < |history| && history[i].Stashed? && NamesNot(history[i..], nonce)
                && Logged(history, nonce).Some? && history[i].at - Logged(history, nonce).value.at >= 60000
  }

  lemma NamesNotOneMore(history: seq<Event>, last: Event, nonce: string)
    ensures NamesNot(history + [last], nonce) <==> NamesNot(history, nonce) && last.nonce != nonce
  {
    var longer := history + [last];
    assert longer[|history|] == last;
    assert forall i :: 0 <= i < |history| ==> longer[i] == history[i];
  }

  lemma DroppedOneMore(history: seq<Event>, last: Event, nonce: string)
    ensures Dropped(history + [last], nonce) <==>
            && last.nonce != nonce
            && (Dropped(history, nonce)
                || (last.Stashed? && Logged(history, nonce).Some?
                    && last.at - Logged(history, nonce).value.at >= 60000))
  {
    var longer := history + [last];
    assert longer[..|longer| - 1] == history && longer[|history|] == last;
    NamesNotOneMore([], last, nonce);
    forall i | 0 <= i <= |history|
      ensures NamesNot(longer[i..], nonce) <==> NamesNot(history[i..], nonce) && last.nonce != nonce
    {
      assert longer[i..] == history[i..] + [last];
      NamesNotOneMore(history[i..], last, nonce);
    }
    assert longer[|history|] == last;
    assert forall i :: 0 <= i < |history| ==> longer[i] == history[i];
  }

  /** What the map holds, against the log: nothing that has been dropped. */
  lemma {:induction false} KeptUnlessDropped(history: seq<Event>, nonce: string)
    ensures Kept(history, nonce) == if Dropped(history, nonce) then None else Logged(history, nonce)
  {
    if history != [] {
      var front, last := history[..|history| - 1], history[|history| - 1];
      KeptUnlessDropped(front, nonce);
      assert history == front + [last];
      DroppedOneMore(front, last, nonce);
    }
  }

  /** Over every history and any clock, the swept map and the log answer differently
      exactly if the entry was dropped and is young at the time of the take. */
  lemma SweptDiffersExactlyIfDroppedYoung(history: seq<Event>, nonce: string, now: int)
    ensures Answer(Kept(history, nonce), now) != Answer(Logged(history, nonce), now)
            <==> Dropped(history, nonce) && now - Logged(history, nonce).value.at < 60000
  {
    hide Dropped;
    KeptUnlessDropped(history, nonce);
    DroppedIsLogged(history, nonce);
  }

  lemma DroppedIsLogged(history: seq<Event>, nonce: string)
    ensures Dropped(history, nonce) ==> Logged(history, nonce).Some?
  {
  }

  /** Sweeping changes no answer, as long as the clock does not go back. */
  lemma SweptAnswersLikeUnswept(history: seq<Event>, nonce: string, now: int)
    requires Ordered(history, now)
    ensures Answer(Kept(history, nonce), now) == Answer(Logged(history, nonce), now)
  {
    KeptOrTooOld(history, nonce, now);
  }

  /** When it does go back, a sweep at the later time has dropped a secret that
      is young again. */
  lemma SweepShowsWhenTheClockGoesBack(nonce: string, other: string, secret: string)
    requires nonce != other
    ensures var history := [Stashed(nonce, secret, 0), Stashed(other, secret, 60000)];
            && Answer(Kept(history, nonce), 0) == None
            && Answer(Logged(history, nonce), 0) == Some(secret)
  {
    var history := [Stashed(nonce, secret, 0), Stashed(other, secret, 60000)];
    assert history[..1] == [Stashed(nonce, secret, 0)];
    assert [Stashed(nonce, secret, 0)][..0] == [];
  }

  predicate NotStashed(history: seq<Event>, nonce: string) {
    forall i :: 0 <= i < |history| && history[i].Stashed? ==> history[i].nonce != nonce
  }

  /** A nonce that was never given out has no secret. */
  lemma {:induction false} NoSecretWithoutStash(history: seq<Event>, nonce: string)
    requires NotStashed(history, nonce)
    ensures Logged(history, nonce) == None
  {
    if history != [] { NoSecretWithoutStash(history[..|history| - 1], nonce); }
  }

  /** After a stash, with no other under its nonce: the secret until something
      takes it, and nothing from then on. */
  lemma {:induction false} LoggedAfterStash(before: seq<Event>, nonce: string, secret: string, at: int,
      after: seq<Event>)
    requires NotStashed(after, nonce)
    ensures Logged(before + [Stashed(nonce, secret, at)] + after, nonce) ==
            if NamesNot(after, nonce) then Some(Entry(secret, at)) else None
  {
    var history := before + [Stashed(nonce, secret, at)] + after;
    if after != [] {
      var rest := after[..|after| - 1];
      assert history[..|history| - 1] == before + [Stashed(nonce, secret, at)] + rest;
      LoggedAfterStash(before, nonce, secret, at, rest);
      assert history[|history| - 1] == after[|after| - 1];
      if after[|after| - 1].nonce != nonce && NamesNot(rest, nonce) {
        assert forall i :: 0 <= i < |after| ==> i == |after| - 1 || after[i] == rest[i];
      }
    }
  }

  /** Over every sequence of stashes under nonces of their own and takes, at times
      that do not go back: a take answers with the secret stashed under its nonce
      exactly if it is the first take of it and less than a minute later. So a
      secret is read at most once, and only by its own nonce. */
  lemma ReadOnceWithinAMinute(
    before: seq<Event>, nonce: string, secret: string, at: int, after: seq<Event>, now: int)
    requires NotStashed(after, nonce)
    requires Ordered(before + [Stashed(nonce, secret, at)] + after, now)
    ensures Answer(Kept(before + [Stashed(nonce, secret, at)] + after, nonce), now) ==
            if NamesNot(after, nonce) && now - at < 60000 then Some(secret) else None
  {
    SweptAnswersLikeUnswept(before + [Stashed(nonce, secret, at)] + after, nonce, now);
    LoggedAfterStash(before, nonce, secret, at, after);
  }

  lemma NothingToRead(history: seq<Event>, nonce: string, now: int)
    requires NotStashed(history, nonce) && Ordered(history, now)
    ensures Answer(Kept(history, nonce), now) == None
  {
    SweptAnswersLikeUnswept(history, nonce, now);
    NoSecretWithoutStash(history, nonce);
  }
}

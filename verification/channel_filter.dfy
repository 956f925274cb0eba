/** The per-channel bot of `slackfilter.js`: a map from channel to an
    insertion-ordered set of lower-case banned phrases, slash commands that
    add, list and remove phrases, and a message handler that deletes any
    message containing one of its channel's phrases. */
module ChannelFilter {
  import opened Text
  import opened Seqs
  import opened Events

  type Channel = String

  /** `bannedWordsByChannel`; each set is kept as a sequence in insertion
      order. */
  datatype Store = Store(lists: map<Channel, seq<String>>)

  /** What every stored set satisfies: no phrase twice, no empty phrase, no
      upper-case letter. */
  predicate IsPhraseSet(phrases: seq<String>) {
    && NoDups(phrases)
    && forall k :: 0 <= k < |phrases| ==> phrases[k] != [] && Lower(phrases[k]) == phrases[k]
  }

  predicate Valid(st: Store) {
    forall c :: c in st.lists ==> IsPhraseSet(st.lists[c])
  }

  /** The set of a channel, empty when the channel has no entry. */
  function SetOf(st: Store, channel: Channel): seq<String> {
    if channel in st.lists then st.lists[channel] else []
  }

  // Matching a message

  /** `text.toLowerCase().includes(phrase.toLowerCase())`. */
  predicate Mentions(text: String, phrase: String) {
    Contains(Lower(text), Lower(phrase))
  }

  /** `containsBannedPhrase`: nothing when the channel has no entry;
      otherwise the first phrase, in insertion order, that the lower-cased
      text contains, and nothing when there is none. */
  function ContainsBannedPhrase(st: Store, channel: Channel, text: String): (r: Option<String>)
    ensures channel !in st.lists ==> r.None?
    ensures r.None? <==>
      channel !in st.lists || forall k :: 0 <= k < |st.lists[channel]| ==> !Mentions(text, st.lists[channel][k])
    ensures r.Some? ==>
      exists k :: 0 <= k < |st.lists[channel]| && st.lists[channel][k] == r.value && Mentions(text, r.value)
        && forall j :: 0 <= j < k ==> !Mentions(text, st.lists[channel][j])
  {
    if channel !in st.lists then None
    else Find(st.lists[channel], phrase => Mentions(text, phrase))
  }

  /** The gate of `/slack/events`: a present event of type `message` with no
      subtype, a non-empty text and no `bot_id`. */
  predicate IsCheckedMessage(event: Option<Event>) {
    && event.Some?
    && IsPlainMessage(event.value)
    && Truthy(event.value.text)
    && !Truthy(event.value.botId)
  }

  /** The `/slack/events` handler: the banned phrase for which the message is
      deleted, if any. */
  function HandleEvent(st: Store, event: Option<Event>): (deleted: Option<String>)
    ensures deleted.Some? ==> IsCheckedMessage(event) && deleted.value != []
    ensures deleted.Some? ==> deleted == ContainsBannedPhrase(st, event.value.channel, event.value.text.value)
    ensures Valid(st) && IsCheckedMessage(event) ==>
      deleted == ContainsBannedPhrase(st, event.value.channel, event.value.text.value)
  {
    if IsCheckedMessage(event) then
      var found := ContainsBannedPhrase(st, event.value.channel, event.value.text.value);
      assert Valid(st) && found.Some? ==> found.value in st.lists[event.value.channel];
      if Truthy(found) then found else None
    else None
  }

  // Insertion-ordered set operations

  /** `set.add(x)`: appended when new, otherwise the set is unchanged. */
  function Insert(phrases: seq<String>, x: String): seq<String> {
    if x in phrases then phrases else phrases + [x]
  }

  /** Keeps the phrases that are not among `xs`. */
  function NotIn(xs: seq<String>): String -> bool {
    y => y !in xs
  }

  /** Keeps the phrases that are among `xs`. */
  function Among(xs: seq<String>): String -> bool {
    y => y in xs
  }

  /** The first occurrence of every phrase of `xs`, in the order of `xs`. */
  function Firsts(xs: seq<String>): seq<String>
    decreases |xs|
  {
    if |xs| == 0 then [] else [xs[0]] + Filter(Firsts(xs[1..]), NotIn([xs[0]]))
  }

  lemma FirstsCons(y: String, rest: seq<String>)
    ensures Firsts([y] + rest) == [y] + Filter(Firsts(rest), NotIn([y]))
  {
    assert ([y] + rest)[0] == y && ([y] + rest)[1..] == rest;
  }

  /** One more phrase at the end is a new first occurrence exactly when it
      has not been seen before. */
  lemma {:induction false} FirstsSnoc(ys: seq<String>, z: String)
    ensures Firsts(ys + [z]) == Firsts(ys) + (if z in ys then [] else [z])
    decreases |ys|
  {
    if |ys| == 0 {
      assert ys + [z] == [z] + [];
      FirstsCons(z, []);
      assert Firsts(ys + [z]) == [z];
    } else {
      var y, rest := ys[0], ys[1..];
      assert ys == [y] + rest;
      assert ys + [z] == [y] + (rest + [z]);
      FirstsCons(y, rest + [z]);
      FirstsCons(y, rest);
      FirstsSnoc(rest, z);
      var seen := if z in rest then [] else [z];
      var added := if z in ys then [] else [z];
      assert Filter(seen, NotIn([y])) == added by {
        assert z in ys <==> z == y || z in rest;
        if z !in rest {
          FilterSingle(z, NotIn([y]));
        }
      }
      var later := Filter(Firsts(rest), NotIn([y]));
      FilterAppend(Firsts(rest), seen, NotIn([y]));
      assert Firsts(ys + [z]) == [y] + (later + added);
      assert Firsts(ys) == [y] + later;
      AppendAssoc([y], later, added);
    }
  }

  /** A phrase is among the first occurrences exactly when it is requested. */
  lemma {:induction false} FirstsMembers(xs: seq<String>)
    ensures forall y :: y in Firsts(xs) <==> y in xs
    decreases |xs|
  {
    if |xs| > 0 {
      FirstsMembers(xs[1..]);
      FilterMembers(Firsts(xs[1..]), NotIn([xs[0]]));
      assert xs == [xs[0]] + xs[1..];
    }
  }

  /** One step of `InsertAll`: the last requested phrase is appended to the
      set exactly when it is new. */
  lemma InsertAllStep(phrases: seq<String>, xs: seq<String>, prev: seq<String>)
    requires |xs| > 0
    requires prev == phrases + Filter(Firsts(xs[..|xs| - 1]), NotIn(phrases))
    requires xs[|xs| - 1] in prev <==> xs[|xs| - 1] in phrases || xs[|xs| - 1] in xs[..|xs| - 1]
    ensures Insert(prev, xs[|xs| - 1]) == phrases + Filter(Firsts(xs), NotIn(phrases))
  {
    var init, x := xs[..|xs| - 1], xs[|xs| - 1];
    SplitLast(xs);
    FirstsSnoc(init, x);
    var seen := if x in init then [] else [x];
    var kept := if x in prev then [] else [x];
    assert Filter(seen, NotIn(phrases)) == kept by {
      if x !in init {
        FilterSingle(x, NotIn(phrases));
      }
    }
    var before := Filter(Firsts(init), NotIn(phrases));
    FilterAppend(Firsts(init), seen, NotIn(phrases));
    assert Filter(Firsts(xs), NotIn(phrases)) == before + kept;
    AppendAssoc(phrases, before, kept);
    if x in prev {
      AppendNil(prev);
    }
  }

  /** One step of `InsertAll` keeps the old set in front, adds just the last
      requested phrase and keeps the set free of duplicates. */
  lemma InsertKeepsSet(phrases: seq<String>, xs: seq<String>, prev: seq<String>)
    requires |xs| > 0
    requires |phrases| <= |prev| && prev[..|phrases|] == phrases
    requires forall y :: y in prev <==> y in phrases || y in xs[..|xs| - 1]
    requires NoDups(phrases) ==> NoDups(prev)
    ensures |phrases| <= |Insert(prev, xs[|xs| - 1])| && Insert(prev, xs[|xs| - 1])[..|phrases|] == phrases
    ensures forall y :: y in Insert(prev, xs[|xs| - 1]) <==> y in phrases || y in xs
    ensures NoDups(phrases) ==> NoDups(Insert(prev, xs[|xs| - 1]))
  {
    var init, x := xs[..|xs| - 1], xs[|xs| - 1];
    SplitLast(xs);
    if x !in prev {
      assert (prev + [x])[..|phrases|] == prev[..|phrases|];
    }
  }

  /** `xs.forEach(x => set.add(x))`: the old set stays in place, and after
      it come the first occurrences of the new phrases in request order; no
      phrase appears twice. */
  function InsertAll(phrases: seq<String>, xs: seq<String>): (r: seq<String>)
    ensures r == phrases + Filter(Firsts(xs), NotIn(phrases))
    ensures |phrases| <= |r| && r[..|phrases|] == phrases
    ensures forall y :: y in r <==> y in phrases || y in xs
    ensures NoDups(phrases) ==> NoDups(r)
    decreases |xs|
  {
    if |xs| == 0 then phrases
    else
      var prev := InsertAll(phrases, xs[..|xs| - 1]);
      InsertAllStep(phrases, xs, prev);
      InsertKeepsSet(phrases, xs, prev);
      Insert(prev, xs[|xs| - 1])
  }

  /** Inserting phrases that are all present changes nothing. */
  lemma {:induction false} InsertAllPresent(phrases: seq<String>, xs: seq<String>)
    requires forall k :: 0 <= k < |xs| ==> xs[k] in phrases
    ensures InsertAll(phrases, xs) == phrases
    decreases |xs|
  {
    if |xs| > 0 {
      InsertAllPresent(phrases, xs[..|xs| - 1]);
    }
  }

  /** Inserting non-empty lower-case phrases keeps a phrase set one. */
  lemma InsertAllKeepsPhraseSet(phrases: seq<String>, xs: seq<String>)
    requires IsPhraseSet(phrases)
    requires forall k :: 0 <= k < |xs| ==> xs[k] != [] && Lower(xs[k]) == xs[k]
    ensures IsPhraseSet(InsertAll(phrases, xs))
  {
    var r := InsertAll(phrases, xs);
    forall k | 0 <= k < |r|
      ensures r[k] != [] && Lower(r[k]) == r[k]
    {
      assert r[k] in phrases || r[k] in xs;
    }
  }

  /** `set.delete(x)`. */
  function Delete(phrases: seq<String>, x: String): (r: seq<String>)
    ensures forall y :: y in r <==> y in phrases && y != x
  {
    FilterMembers(phrases, NotIn([x]));
    Filter(phrases, NotIn([x]))
  }

  /** The set left after a removal and the phrases reported removed. */
  datatype Removal = Removal(rest: seq<String>, removed: seq<String>)

  /** `phrasesToRemove.forEach(phrase => { if (set.delete(phrase))
      removed.push(phrase) })`: exactly the requested phrases leave the set,
      and the report lists each present requested phrase once. */
  function DeleteAll(phrases: seq<String>, xs: seq<String>): (r: Removal)
    ensures forall y :: y in r.rest <==> y in phrases && y !in xs
    ensures forall y :: y in r.removed <==> y in phrases && y in xs
    ensures NoDups(r.removed)
    decreases |xs|
  {
    if |xs| == 0 then Removal(phrases, [])
    else
      var prev := DeleteAll(phrases, xs[..|xs| - 1]);
      var x := xs[|xs| - 1];
      assert forall y :: y in xs <==> y in xs[..|xs| - 1] || y == x by {
        assert xs == xs[..|xs| - 1] + [x];
      }
      if x in prev.rest then Removal(Delete(prev.rest, x), prev.removed + [x]) else prev
  }

  /** Reference for the remaining set: the old set, in its order, without the
      requested phrases. */
  lemma {:induction false} DeleteAllRest(phrases: seq<String>, xs: seq<String>)
    ensures DeleteAll(phrases, xs).rest == Filter(phrases, NotIn(xs))
    decreases |xs|
  {
    if |xs| == 0 {
      FilterKeepsAll(phrases, NotIn(xs));
    } else {
      var init := xs[..|xs| - 1];
      var x := xs[|xs| - 1];
      assert xs == init + [x];
      DeleteAllRest(phrases, init);
      var prev := DeleteAll(phrases, init);
      FilterFilter(phrases, NotIn(init), NotIn([x]), NotIn(xs));
      if x !in prev.rest {
        FilterKeepsAll(prev.rest, NotIn([x]));
      }
    }
  }

  /** Removing phrases keeps a phrase set one. */
  lemma DeleteAllKeepsPhraseSet(phrases: seq<String>, xs: seq<String>)
    requires IsPhraseSet(phrases)
    ensures IsPhraseSet(DeleteAll(phrases, xs).rest)
  {
    var r := DeleteAll(phrases, xs).rest;
    DeleteAllRest(phrases, xs);
    FilterNoDups(phrases, NotIn(xs));
    forall k | 0 <= k < |r|
      ensures r[k] != [] && Lower(r[k]) == r[k]
    {
      assert r[k] in phrases;
    }
  }

  /** Reference for the report: the requested phrases in request order, each
      at its first occurrence, kept when the old set held them. */
  lemma {:induction false} DeleteAllRemoved(phrases: seq<String>, xs: seq<String>)
    ensures DeleteAll(phrases, xs).removed == Filter(Firsts(xs), Among(phrases))
    decreases |xs|
  {
    if |xs| > 0 {
      var init, x := xs[..|xs| - 1], xs[|xs| - 1];
      assert xs == init + [x];
      DeleteAllRemoved(phrases, init);
      var prev := DeleteAll(phrases, init);
      FirstsSnoc(init, x);
      var seen := if x in init then [] else [x];
      FilterAppend(Firsts(init), seen, Among(phrases));
      assert Filter(seen, Among(phrases)) == (if x in prev.rest then [x] else []) by {
        if x !in init {
          FilterSingle(x, Among(phrases));
        }
      }
    }
  }

  // Slash commands

  datatype Command = AddBanned | ViewList | RemoveWord | OtherCommand

  /** The ephemeral replies, one per branch of `/slack/commands`. */
  datatype Reply =
    | AddUsage
    | AddDenied
    | Added(phrases: seq<String>)
    | NoPhrases
    | Listed(phrases: seq<String>)
    | RemoveUsage
    | RemoveDenied
    | NoneRemoved
    | Removed(phrases: seq<String>)
    | NotFound

  datatype Outcome = Outcome(store: Store, reply: Reply)

  /** `!text || !text.trim()`. */
  predicate IsBlank(text: Option<String>) {
    !Truthy(text) || Trim(text.value) == []
  }

  predicate NonEmpty(s: String) { |s| > 0 }

  /** `text.split(',').map(p => p.trim()).filter(p => p.length > 0)`. */
  function AddPieces(text: String): (r: seq<String>)
    ensures forall k :: 0 <= k < |r| ==> r[k] != [] && IsTrimmed(r[k])
  {
    Filter(Map(Split(text, ','), Trim), NonEmpty)
  }

  /** `text.split(',').map(p => p.trim().toLowerCase()).filter(p => p.length > 0)`. */
  function RemovePieces(text: String): (r: seq<String>)
    ensures forall k :: 0 <= k < |r| ==> r[k] != [] && IsTrimmed(r[k]) && Lower(r[k]) == r[k]
  {
    Filter(Map(Split(text, ','), TrimLower), NonEmpty)
  }

  /** Add pieces keep the order of the text: the pieces of `a,b` are those of
      `a` followed by those of `b`. */
  lemma AddPiecesConcat(a: String, b: String)
    ensures AddPieces(a + "," + b) == AddPieces(a) + AddPieces(b)
  {
    SplitConcat(a, b, ',');
    MapAppend(Split(a, ','), Split(b, ','), Trim);
    FilterAppend(Map(Split(a, ','), Trim), Map(Split(b, ','), Trim), NonEmpty);
  }

  /** A text without commas is one piece, trimmed, dropped when blank. */
  lemma AddPiecesPiece(a: String)
    requires ',' !in a
    ensures AddPieces(a) == if Trim(a) == [] then [] else [Trim(a)]
  {
    SplitNoSeparator(a, ',');
    assert Map([a], Trim) == [Trim(a)];
    FilterSingle(Trim(a), NonEmpty);
  }

  /** Remove pieces keep the order of the text: the pieces of `a,b` are those
      of `a` followed by those of `b`. */
  lemma RemovePiecesConcat(a: String, b: String)
    ensures RemovePieces(a + "," + b) == RemovePieces(a) + RemovePieces(b)
  {
    SplitConcat(a, b, ',');
    MapAppend(Split(a, ','), Split(b, ','), TrimLower);
    FilterAppend(Map(Split(a, ','), TrimLower), Map(Split(b, ','), TrimLower), NonEmpty);
  }

  /** A text without commas is one piece, trimmed and lower-cased, dropped
      when blank. */
  lemma RemovePiecesPiece(a: String)
    requires ',' !in a
    ensures RemovePieces(a) == if TrimLower(a) == [] then [] else [TrimLower(a)]
  {
    SplitNoSeparator(a, ',');
    assert Map([a], TrimLower) == [TrimLower(a)];
    FilterSingle(TrimLower(a), NonEmpty);
  }

  /** Lower-casing non-empty pieces gives non-empty lower-case phrases. */
  lemma LoweredPhrases(pieces: seq<String>)
    requires forall k :: 0 <= k < |pieces| ==> pieces[k] != []
    ensures forall k :: 0 <= k < |pieces| ==> Map(pieces, Lower)[k] != [] && Lower(Map(pieces, Lower)[k]) == Map(pieces, Lower)[k]
  {
    forall k | 0 <= k < |pieces|
      ensures Lower(Lower(pieces[k])) == Lower(pieces[k])
    {
      LowerIdempotent(pieces[k]);
    }
  }

  /** Replaces the set of one channel: every other channel keeps its set, and
      a valid store stays valid when the new set is a phrase set. */
  function Put(st: Store, channel: Channel, phrases: seq<String>): (after: Store)
    ensures after.lists.Keys == st.lists.Keys + {channel}
    ensures after.lists[channel] == phrases
    ensures forall c :: c in st.lists && c != channel ==> after.lists[c] == st.lists[c]
    ensures Valid(st) && IsPhraseSet(phrases) ==> Valid(after)
  {
    Store(st.lists[channel := phrases])
  }

  /** `/add-banned`. A blank text or an unauthorised caller leaves the store
      alone. Otherwise the channel gets a set if it had none, every piece is
      inserted lower-cased, nothing already there moves or goes, the new
      phrases follow in request order, other channels are untouched, and the
      reply echoes every piece as typed, whether new or not. `allowed` is the answer of `isChannelManager`. */
  function AddPhrases(st: Store, channel: Channel, text: Option<String>, allowed: bool): (o: Outcome)
    ensures IsBlank(text) ==> o == Outcome(st, AddUsage)
    ensures !IsBlank(text) && !allowed ==> o == Outcome(st, AddDenied)
    ensures !IsBlank(text) && allowed ==>
      && o.reply == Added(AddPieces(text.value))
      && o.store.lists.Keys == st.lists.Keys + {channel}
      && (forall c :: c in st.lists && c != channel ==> o.store.lists[c] == st.lists[c])
      && |SetOf(st, channel)| <= |o.store.lists[channel]|
      && o.store.lists[channel][..|SetOf(st, channel)|] == SetOf(st, channel)
      && o.store.lists[channel] ==
           SetOf(st, channel) + Filter(Firsts(Map(AddPieces(text.value), Lower)), NotIn(SetOf(st, channel)))
      && (forall y :: y in o.store.lists[channel] <==> y in SetOf(st, channel) || y in Map(AddPieces(text.value), Lower))
    ensures Valid(st) ==> Valid(o.store)
  {
    if IsBlank(text) then Outcome(st, AddUsage)
    else if !allowed then Outcome(st, AddDenied)
    else
      var pieces := AddPieces(text.value);
      var lowered := Map(pieces, Lower);
      var updated := InsertAll(SetOf(st, channel), lowered);
      assert Valid(st) ==> IsPhraseSet(updated) by {
        if Valid(st) {
          LoweredPhrases(pieces);
          InsertAllKeepsPhraseSet(SetOf(st, channel), lowered);
        }
      }
      Outcome(Put(st, channel, updated), Added(pieces))
  }

  /** `/view-list`. */
  function View(st: Store, channel: Channel): (r: Reply)
    ensures r == NoPhrases <==> SetOf(st, channel) == []
    ensures r != NoPhrases ==> r == Listed(SetOf(st, channel))
  {
    if channel !in st.lists || |st.lists[channel]| == 0 then NoPhrases
    else Listed(st.lists[channel])
  }

  /** `/remove-word`. A blank text, an unauthorised caller or a channel with
      no entry leaves the store alone. Otherwise the requested phrases
      (trimmed, lower-cased, non-empty) leave the channel's phrases, other
      channels are untouched, and the reply lists the removed phrases in
      request order, each once, or says none were found. */
  function RemovePhrases(st: Store, channel: Channel, text: Option<String>, allowed: bool): (o: Outcome)
    ensures IsBlank(text) ==> o == Outcome(st, RemoveUsage)
    ensures !IsBlank(text) && !allowed ==> o == Outcome(st, RemoveDenied)
    ensures !IsBlank(text) && allowed && channel !in st.lists ==> o == Outcome(st, NoPhrases)
    ensures !IsBlank(text) && allowed && channel in st.lists ==>
      && o.store.lists.Keys == st.lists.Keys
      && (forall c :: c in st.lists && c != channel ==> o.store.lists[c] == st.lists[c])
      && o.store.lists[channel] == Filter(st.lists[channel], NotIn(RemovePieces(text.value)))
      && (o.reply == NoneRemoved || o.reply.Removed?)
      && (o.reply.Removed? ==> o.reply.phrases != [])
      && var removed := if o.reply.Removed? then o.reply.phrases else [];
         && removed == Filter(Firsts(RemovePieces(text.value)), Among(st.lists[channel]))
         && NoDups(removed)
         && forall y :: y in removed <==> y in st.lists[channel] && y in RemovePieces(text.value)
    ensures Valid(st) ==> Valid(o.store)
  {
    if IsBlank(text) then Outcome(st, RemoveUsage)
    else if !allowed then Outcome(st, RemoveDenied)
    else
      var pieces := RemovePieces(text.value);
      if channel !in st.lists then Outcome(st, NoPhrases)
      else
        var d := DeleteAll(st.lists[channel], pieces);
        DeleteAllRest(st.lists[channel], pieces);
        DeleteAllRemoved(st.lists[channel], pieces);
        assert Valid(st) ==> IsPhraseSet(d.rest) by {
          if Valid(st) {
            DeleteAllKeepsPhraseSet(st.lists[channel], pieces);
          }
        }
        var after := Put(st, channel, d.rest);
        if |d.removed| == 0 then Outcome(after, NoneRemoved) else Outcome(after, Removed(d.removed))
  }

  /** `/slack/commands`. */
  function HandleCommand(st: Store, command: Command, channel: Channel, text: Option<String>, allowed: bool): (o: Outcome)
    ensures Valid(st) ==> Valid(o.store)
    ensures st.lists.Keys <= o.store.lists.Keys
    ensures command.ViewList? || command.OtherCommand? ==> o.store == st
    ensures command.OtherCommand? ==> o.reply == NotFound
  {
    match command
    case AddBanned => AddPhrases(st, channel, text, allowed)
    case ViewList => Outcome(st, View(st, channel))
    case RemoveWord => RemovePhrases(st, channel, text, allowed)
    case OtherCommand => Outcome(st, NotFound)
  }

  /** Putting back the set a channel already has changes nothing. */
  lemma PutSame(st: Store, channel: Channel)
    requires channel in st.lists
    ensures Put(st, channel, st.lists[channel]) == st
  {
    assert Put(st, channel, st.lists[channel]).lists == st.lists;
  }

  /** An authorised `/add-banned` with a non-blank text stores the channel's
      set with the lower-cased pieces inserted. */
  lemma AddPhrasesStores(st: Store, channel: Channel, text: Option<String>)
    requires !IsBlank(text)
    ensures AddPhrases(st, channel, text, true) ==
      Outcome(Put(st, channel, InsertAll(SetOf(st, channel), Map(AddPieces(text.value), Lower))), Added(AddPieces(text.value)))
  {
  }

  /** Adding the same phrases a second time changes nothing. */
  lemma AddIdempotent(st: Store, channel: Channel, text: Option<String>, allowed: bool)
    ensures AddPhrases(AddPhrases(st, channel, text, allowed).store, channel, text, allowed)
         == AddPhrases(st, channel, text, allowed)
  {
    if !IsBlank(text) && allowed {
      var lowered := Map(AddPieces(text.value), Lower);
      var updated := InsertAll(SetOf(st, channel), lowered);
      var once := Put(st, channel, updated);
      AddPhrasesStores(st, channel, text);
      AddPhrasesStores(once, channel, text);
      assert SetOf(once, channel) == updated;
      forall k | 0 <= k < |lowered|
        ensures lowered[k] in updated
      {
        assert lowered[k] in lowered;
      }
      InsertAllPresent(updated, lowered);
      PutSame(once, channel);
    }
  }

  /** Once a phrase is added to a channel, a message there that contains it,
      in any letter case, is deleted for some banned phrase. */
  lemma AddThenMentionDeletes(st: Store, channel: Channel, text: Option<String>, k: int, message: Event)
    requires Valid(st)
    requires !IsBlank(text)
    requires 0 <= k < |AddPieces(text.value)|
    requires IsCheckedMessage(Some(message)) && message.channel == channel
    requires Mentions(message.text.value, AddPieces(text.value)[k])
    ensures HandleEvent(AddPhrases(st, channel, text, true).store, Some(message)).Some?
  {
    var after := AddPhrases(st, channel, text, true).store;
    var piece := AddPieces(text.value)[k];
    LowerIdempotent(piece);
    assert Lower(piece) in after.lists[channel] by {
      assert Map(AddPieces(text.value), Lower)[k] == Lower(piece);
    }
    assert Mentions(message.text.value, Lower(piece));
  }

  /** Removing every phrase of a channel leaves it listed as having none. */
  lemma RemoveEverythingEmpties(st: Store, channel: Channel, text: Option<String>)
    requires !IsBlank(text) && channel in st.lists
    requires forall y :: y in st.lists[channel] ==> y in RemovePieces(text.value)
    ensures View(RemovePhrases(st, channel, text, true).store, channel) == NoPhrases
  {
    FilterDropsAll(st.lists[channel], NotIn(RemovePieces(text.value)));
  }

  /** Without authorisation, no command changes the store. */
  lemma DeniedChangesNothing(st: Store, command: Command, channel: Channel, text: Option<String>)
    ensures HandleCommand(st, command, channel, text, false).store == st
  {
  }

  lemma ExampleSplit(t: String)
    requires t == "Foo,foo,FOO"
    ensures Split(t, ',') == ["Foo", "foo", "FOO"]
  {
    var a, b, c := "Foo", "foo", "FOO";
    assert t == a + [','] + b + [','] + c;
    SplitConcat(a + [','] + b, c, ',');
    SplitConcat(a, b, ',');
    SplitNoSeparator(a, ',');
    SplitNoSeparator(b, ',');
    SplitNoSeparator(c, ',');
  }

  lemma ExamplePieces(t: String)
    requires t == "Foo,foo,FOO"
    ensures AddPieces(t) == ["Foo", "foo", "FOO"]
  {
    ExampleTrimmed(t);
    FilterKeepsAll(["Foo", "foo", "FOO"], NonEmpty);
  }

  lemma ExampleTrimmed(t: String)
    requires t == "Foo,foo,FOO"
    ensures Map(Split(t, ','), Trim) == ["Foo", "foo", "FOO"]
  {
    ExampleSplit(t);
    var a, b, c := "Foo", "foo", "FOO";
    var m := Map([a, b, c], Trim);
    assert m[0] == a by { assert IsTrimmed(a); }
    assert m[1] == b by { assert IsTrimmed(b); }
    assert m[2] == c by { assert IsTrimmed(c); }
  }

  lemma ExampleLowered(pieces: seq<String>)
    requires pieces == ["Foo", "foo", "FOO"]
    ensures InsertAll([], Map(pieces, Lower)) == ["foo"]
  {
    var b := "foo";
    assert Lower(pieces[0]) == b && Lower(pieces[1]) == b && Lower(pieces[2]) == b;
    var lowered := Map(pieces, Lower);
    assert lowered == [b] + [b, b];
    FirstsCons(b, [b, b]);
    FirstsMembers([b, b]);
    FilterDropsAll(Firsts([b, b]), NotIn([b]));
    assert Firsts(lowered) == [b];
    FilterSingle(b, NotIn([]));
  }

  /** Pieces differing only in case are stored once, while the reply echoes
      each as typed: "Foo,foo,FOO" on a fresh channel stores just "foo". */
  lemma CaseVariantsStoredOnce(st: Store, channel: Channel, text: Option<String>)
    requires st == Store(map[]) && text == Some("Foo,foo,FOO")
    ensures AddPhrases(st, channel, text, true) == Outcome(Store(map[channel := ["foo"]]), Added(["Foo", "foo", "FOO"]))
  {
    ExamplePieces(text.value);
    ExampleLowered(AddPieces(text.value));
  }
}

// The server state object: its locked maps, and the operations on them as they are written.
module ServerState {
  import opened Wrappers
  import opened FiniteSets
  import opened CollabState

  /** One locked map from a key to the channels listed for it. */
  class SenderMap {
    var lists: SenderLists

    constructor ()
      ensures lists == map[]
    {
      lists := map[];
    }

    method Add(key: string, x: Chan)
      modifies this
      ensures lists == AddSender(old(lists), key, x)
    {
      if key !in lists {
        lists := lists[key := []];
      }
      lists := lists[key := lists[key] + [x]];
    }

    /** What dropping the guard of `x` for `key` does. */
    method DropGuardOf(key: string, x: Chan)
      modifies this
      ensures lists == RemoveSender(old(lists), key, x)
    {
      var senders := if key in lists then lists[key] else [];
      var kept: seq<Chan> := [];
      for i := 0 to |senders|
        invariant kept == Without(senders[..i], x)
        invariant lists == old(lists)
      {
        WithoutAppended(senders[..i], senders[i], x);
        assert senders[..i] + [senders[i]] == senders[..i + 1];
        if senders[i] != x {
          kept := kept + [senders[i]];
        }
      }
      assert senders[..|senders|] == senders;
      lists := lists[key := kept];
      if |kept| == 0 {
        lists := lists - {key};
        assert lists == old(lists) - {key};
      }
    }

    /** Sends to the listed channels in order; a closed one ends it with an error. */
    method SendToAll(key: string, open: set<Chan>) returns (sent: seq<Chan>, ok: bool)
      ensures sent == SentTo(Listed(lists, key), open)
      ensures ok <==> sent == Listed(lists, key)
    {
      var senders := if key in lists then lists[key] else [];
      sent, ok := [], true;
      for i := 0 to |senders|
        invariant ok && sent == senders[..i]
        invariant forall k :: 0 <= k < i ==> senders[k] in open
      {
        if senders[i] !in open {
          SentUpTo(senders, i, open);
          assert |sent| < |senders|;
          return sent, false;
        }
        sent := sent + [senders[i]];
      }
      SentUpTo(senders, |senders|, open);
    }
  }

  class State {
    const mediaSenders: SenderMap
    const collabSenders: SenderMap
    var pins: map<string, string>                   // collab id to media file id
    var mediaGuards: map<Chan, Option<string>>      // registered sessions, with the file their guard is for

    constructor ()
      ensures Valid() && fresh(mediaSenders) && fresh(collabSenders)
      ensures mediaSenders.lists == map[] && collabSenders.lists == map[] && pins == map[] && mediaGuards == map[]
    {
      mediaSenders := new SenderMap();
      collabSenders := new SenderMap();
      pins, mediaGuards := map[], map[];
    }

    predicate Valid() {
      mediaSenders != collabSenders
    }

    method GarbageCollectCollabMediaFileMap()
      modifies this`pins
      ensures pins == Collected(old(pins), collabSenders.lists)
      ensures forall c :: c in pins <==> c in old(pins) && c in collabSenders.lists && collabSenders.lists[c] != []
      ensures forall c :: c in pins ==> pins[c] == old(pins)[c]
    {
      var rest := pins.Keys;
      var kept: map<string, string> := map[];
      while rest != {}
        invariant pins == old(pins) && rest <= pins.Keys
        invariant kept == map c | c in pins && c !in rest && Listed(collabSenders.lists, c) != [] :: pins[c]
        decreases rest
      {
        var c := PickAny(rest);
        if c in collabSenders.lists && |collabSenders.lists[c]| != 0 {
          kept := kept[c := pins[c]];
        }
        rest := rest - {c};
      }
      assert kept == Collected(pins, collabSenders.lists);
      pins := kept;
    }

    /** Joins a collab: garbage collection, then the pin, then the list. */
    method LinkSessionToCollab(collab: string, media: string, x: Chan) returns (ok: bool)
      requires Valid()
      modifies this`pins, collabSenders
      ensures var collected := Collected(old(pins), old(collabSenders.lists));
              match Pinned(collected, collab, media)
              case None => !ok && pins == collected && collabSenders.lists == old(collabSenders.lists)
              case Some(p) => ok && pins == p && collabSenders.lists == AddSender(old(collabSenders.lists), collab, x)
      ensures var occupied := collab in old(collabSenders.lists) && old(collabSenders.lists)[collab] != [];
              ok <==> !occupied || collab !in old(pins) || old(pins)[collab] == media
      ensures ok ==> collab in pins && pins[collab] == media
                     && collab in collabSenders.lists && x in collabSenders.lists[collab]
    {
      GarbageCollectCollabMediaFileMap();
      if collab !in pins {
        pins := pins[collab := media];
      } else if pins[collab] != media {
        return false;
      }
      collabSenders.Add(collab, x);
      return true;
    }

    /** Registers a session as viewer of a media file. The previous guard is dropped last. */
    method LinkSessionToMediaFile(x: Chan, media: string) returns (ok: bool)
      requires Valid()
      modifies this`mediaGuards, mediaSenders
      ensures ok <==> x in old(mediaGuards)
      ensures !ok ==> mediaGuards == old(mediaGuards) && mediaSenders.lists == old(mediaSenders.lists)
      ensures ok ==> mediaGuards == old(mediaGuards)[x := Some(media)]
                     && mediaSenders.lists == LinkedToMedia(old(mediaSenders.lists), old(mediaGuards)[x], media, x)
    {
      if x !in mediaGuards {
        return false;
      }
      mediaSenders.Add(media, x);
      var previous := mediaGuards[x];
      mediaGuards := mediaGuards[x := Some(media)];
      if previous.Some? {
        mediaSenders.DropGuardOf(previous.value, x);
      }
      return true;
    }
  }
}

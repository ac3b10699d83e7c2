// The shared state of the API server: sender lists per collab and per media file, and the media
// file each collab is pinned to. Every function here is one critical section, except LinkedToMedia:
// it takes the lock of the list once to push and once more to drop.
module CollabState {
  import opened Wrappers
  import opened Sorting

  /** A session is known by its message channel; `same_channel` is equality. */
  type Chan = int

  type SenderLists = map<string, seq<Chan>>

  function Listed(lists: SenderLists, key: string): seq<Chan> {
    if key in lists then lists[key] else []
  }

  function Without(list: seq<Chan>, x: Chan): seq<Chan> {
    if list == [] then []
    else (if list[0] == x then [] else [list[0]]) + Without(list[1..], x)
  }

  function AddSender(lists: SenderLists, key: string, x: Chan): SenderLists {
    lists[key := Listed(lists, key) + [x]]
  }

  /** Dropping a guard removes every entry of its channel from the list of its key. */
  function RemoveSender(lists: SenderLists, key: string, x: Chan): SenderLists {
    var rest := Without(Listed(lists, key), x);
    if rest == [] then lists - {key} else lists[key := rest]
  }

  function DropGuard(lists: SenderLists, guard: Option<string>, x: Chan): SenderLists {
    match guard
    case None => lists
    case Some(key) => RemoveSender(lists, key, x)
  }

  /** Collabs without viewers lose their media file. */
  function Collected(pins: map<string, string>, lists: SenderLists): map<string, string> {
    map c | c in pins && Listed(lists, c) != [] :: pins[c]
  }

  /** The first joiner pins the media file; later ones must bring the same. */
  function Pinned(pins: map<string, string>, collab: string, media: string): Option<map<string, string>> {
    if collab !in pins then Some(pins[collab := media])
    else if pins[collab] != media then None
    else Some(pins)
  }

  /** Linking a session to a media file: the new entry is pushed before the old guard is dropped. */
  function LinkedToMedia(lists: SenderLists, prev: Option<string>, media: string, x: Chan): SenderLists {
    DropGuard(AddSender(lists, media, x), prev, x)
  }

  /** Messages go out in list order up to the first closed channel. */
  function SentTo(list: seq<Chan>, open: set<Chan>): seq<Chan> {
    if list == [] || list[0] !in open then [] else [list[0]] + SentTo(list[1..], open)
  }

  /** Lists are never empty and name no channel twice. */
  ghost predicate ListsOk(lists: SenderLists) {
    forall key :: key in lists ==> lists[key] != [] && NoDup(lists[key])
  }

  predicate IsListed(lists: SenderLists, key: string, x: Chan) {
    x in Listed(lists, key)
  }

  lemma {:induction false} WithoutExact(list: seq<Chan>, x: Chan)
    ensures forall y :: y in Without(list, x) <==> y in list && y != x
    ensures NoDup(list) ==> NoDup(Without(list, x))
  {
    if list != [] {
      WithoutExact(list[1..], x);
      assert forall y :: y in list <==> y == list[0] || y in list[1..];
      if NoDup(list) {
        assert NoDup(list[1..]);
        assert list[0] !in list[1..];
        assert list[0] !in Without(list[1..], x);
        var r := Without(list, x);
        if list[0] != x {
          assert r == [list[0]] + Without(list[1..], x);
        } else {
          assert r == Without(list[1..], x);
        }
      }
    }
  }

  lemma RemoveExact(lists: SenderLists, key: string, x: Chan)
    requires ListsOk(lists)
    ensures ListsOk(RemoveSender(lists, key, x))
    ensures forall k, y :: IsListed(RemoveSender(lists, key, x), k, y) <==>
                IsListed(lists, k, y) && !(k == key && y == x)
  {
    WithoutExact(Listed(lists, key), x);
  }

  lemma DropExact(lists: SenderLists, guard: Option<string>, x: Chan)
    requires ListsOk(lists)
    ensures ListsOk(DropGuard(lists, guard, x))
    ensures forall k, y :: IsListed(DropGuard(lists, guard, x), k, y) <==>
                IsListed(lists, k, y) && !(Some(k) == guard && y == x)
  {
    if guard.Some? {
      RemoveExact(lists, guard.value, x);
    }
  }

  lemma AddExact(lists: SenderLists, key: string, x: Chan)
    ensures forall k, y :: IsListed(AddSender(lists, key, x), k, y) <==> IsListed(lists, k, y) || (k == key && y == x)
    ensures ListsOk(lists) && !IsListed(lists, key, x) ==> ListsOk(AddSender(lists, key, x))
  {
  }

  lemma {:induction false} SentToAll(list: seq<Chan>, open: set<Chan>)
    requires forall k :: 0 <= k < |list| ==> list[k] in open
    ensures SentTo(list, open) == list
  {
    if list != [] {
      SentToAll(list[1..], open);
      assert list == [list[0]] + list[1..];
    }
  }

  // ---------------------------------------------------------------- linking to a media file

  /** A session is a viewer of at most one media file: the one its guard names. */
  ghost predicate ViewsOnly(lists: SenderLists, guard: Option<string>, x: Chan) {
    forall key :: IsListed(lists, key, x) ==> guard == Some(key)
  }

  /** Opening a media file registers the session as its viewer exactly when its previous guard is
      not for the same file. Opening the same file again takes it off the list. */
  lemma LinkExact(lists: SenderLists, prev: Option<string>, media: string, x: Chan, key: string, y: Chan)
    requires ListsOk(lists) && ViewsOnly(lists, prev, x)
    ensures var t := LinkedToMedia(lists, prev, media, x);
            && (IsListed(t, key, x) <==> key == media && prev != Some(media))
            && (y != x ==> (IsListed(t, key, y) <==> IsListed(lists, key, y)))
            && ListsOk(t) && ViewsOnly(t, Some(media), x)
  {
    AddExact(lists, media, x);
    if prev == Some(media) {
      LinkSame(lists, media, x);
      RemoveExact(lists, media, x);
    } else {
      assert !IsListed(lists, media, x);
      DropExact(AddSender(lists, media, x), prev, x);
    }
  }

  lemma LinkSame(lists: SenderLists, media: string, x: Chan)
    ensures LinkedToMedia(lists, Some(media), media, x) == RemoveSender(lists, media, x)
  {
    WithoutAppended(Listed(lists, media), x, x);
    var added := AddSender(lists, media, x);
    assert Without(Listed(added, media), x) == Without(Listed(lists, media), x);
    if Without(Listed(lists, media), x) == [] {
      assert added - {media} == lists - {media};
    }
  }

  lemma {:induction false} WithoutAppended(list: seq<Chan>, y: Chan, x: Chan)
    ensures Without(list + [y], x) == Without(list, x) + (if y == x then [] else [y])
  {
    if list == [] {
      assert [y][1..] == [] && list + [y] == [y];
    } else {
      WithoutAppended(list[1..], y, x);
      assert (list + [y])[1..] == list[1..] + [y];
    }
  }

  /** The open channels before the first closed one all get the message. */
  lemma {:induction false} SentUpTo(list: seq<Chan>, i: nat, open: set<Chan>)
    requires i <= |list| && forall k :: 0 <= k < i ==> list[k] in open
    ensures SentTo(list, open) == list[..i] + SentTo(list[i..], open)
  {
    if i > 0 {
      SentUpTo(list[1..], i - 1, open);
      assert list[1..][i - 1..] == list[i..];
      assert list[..i] == [list[0]] + list[1..][..i - 1];
    } else {
      assert list[0..] == list && list[..0] == [];
    }
  }

  /** Between the two locks of a link, a message for the media file reaches the session twice if it
      was listed already, and every other session as often as before. */
  lemma BetweenLocks(lists: SenderLists, media: string, x: Chan, open: set<Chan>, y: Chan)
    requires ListsOk(lists) && x in open && forall k :: 0 <= k < |Listed(lists, media)| ==>
                 Listed(lists, media)[k] in open
    ensures var sent := SentTo(Listed(AddSender(lists, media, x), media), open);
            multiset(sent)[y] == (if IsListed(lists, media, y) then 1 else 0) + (if y == x then 1 else 0)
  {
    var list := Listed(lists, media);
    SentToAll(list + [x], open);
    NoDupCounts(list);
    assert y in list <==> y in multiset(list);
  }

  /** Opening one file twice in a row: the second time, the session gets no more updates of it. */
  lemma OpenedTwice(media: string, x: Chan)
    ensures var once := LinkedToMedia(map[], None, media, x);
            var twice := LinkedToMedia(once, Some(media), media, x);
            IsListed(once, media, x) && !IsListed(twice, media, x)
  {
    assert ListsOk(map[]) && ViewsOnly(map[], None, x);
    LinkExact(map[], None, media, x, media, x);
    LinkExact(LinkedToMedia(map[], None, media, x), Some(media), media, x, media, x);
  }
}

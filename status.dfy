/** The persistent status lists: `localStorage` as a map from storage key to
    the decoded string array, read through `getLS` (a missing key reads as
    `[]`) and updated by the classification buttons and the reset button. */
module Status {

  /** The two lists `handleResult` is ever called with. */
  datatype ListName = HiddenWords | UnlearnedWords

  type Storage = map<string, seq<string>>

  const Hidden: string := "hiddenWords"
  const Unlearned: string := "unlearnedWords"

  function StorageKey(l: ListName): (name: string)
    ensures name == Hidden || name == Unlearned
  {
    match l
    case HiddenWords => Hidden
    case UnlearnedWords => Unlearned
  }

  /** `getLS(name)`. */
  function Read(st: Storage, name: string): seq<string> {
    if name in st then st[name] else []
  }

  predicate NoDup(s: seq<string>) {
    forall i, j :: 0 <= i < j < |s| ==> s[i] != s[j]
  }

  /** What the script itself ever writes: neither list holds a key twice. */
  predicate StoreValid(st: Storage) {
    NoDup(Read(st, Hidden)) && NoDup(Read(st, Unlearned))
  }

  /** Appends `key` to the named list unless the list already holds it;
      storage is written only then (sentence.js:93-97). */
  function PushIfAbsent(st: Storage, name: string, key: string): (r: Storage)
    ensures key in Read(r, name)
    ensures forall x :: x in Read(r, name) <==> x in Read(st, name) || x == key
    ensures Read(st, name) <= Read(r, name)
    ensures key in Read(st, name) ==> r == st
    ensures key !in Read(st, name) ==> Read(r, name) == Read(st, name) + [key]
    ensures NoDup(Read(st, name)) ==> NoDup(Read(r, name))
    ensures forall n :: n != name ==> (n in r <==> n in st) && (n in r ==> r[n] == st[n])
  {
    var arr := Read(st, name);
    if key in arr then st else st[name := arr + [key]]
  }

  /** `arr.indexOf(key)`: the first position holding `key`, or -1. */
  function IndexOf(s: seq<string>, key: string): (i: int)
    ensures -1 <= i < |s|
    ensures i == -1 <==> key !in s
    ensures i >= 0 ==> s[i] == key && forall j :: 0 <= j < i ==> s[j] != key
  {
    if s == [] then -1
    else if s[0] == key then 0
    else
      var i := IndexOf(s[1..], key);
      if i == -1 then -1 else i + 1
  }

  /** `arr.splice(i, 1)`. */
  function RemoveAt(s: seq<string>, i: nat): (r: seq<string>)
    requires i < |s|
    ensures |r| == |s| - 1
    ensures forall j :: 0 <= j < |r| ==> r[j] == if j < i then s[j] else s[j + 1]
    ensures multiset(s) == multiset(r) + multiset{s[i]}
  {
    assert s == s[..i] + [s[i]] + s[i + 1..];
    s[..i] + s[i + 1..]
  }

  /** Removing position `i` drops `s[i]` and keeps every other element; on a
      list without repeats that is its only copy. */
  lemma RemoveAtElements(s: seq<string>, i: nat)
    requires i < |s|
    ensures forall x :: x in RemoveAt(s, i) ==> x in s
    ensures forall x :: x in s && x != s[i] ==> x in RemoveAt(s, i)
    ensures NoDup(s) ==> s[i] !in RemoveAt(s, i) && NoDup(RemoveAt(s, i))
  {
    var r := RemoveAt(s, i);
    forall j | 0 <= j < |r| ensures r[j] == if j < i then s[j] else s[j + 1] {
    }
    forall x | x in s && x != s[i] ensures x in r {
      var j :| 0 <= j < |s| && s[j] == x;
      if j < i { assert r[j] == x; } else { assert r[j - 1] == x; }
    }
  }

  /** Removes the first copy of `key` from the named list, if there is
      one; on a list without repeats that is the only copy
      (sentence.js:100-105). */
  function SpliceOut(st: Storage, name: string, key: string): (r: Storage)
    ensures key !in Read(st, name) ==> r == st
    ensures NoDup(Read(st, name)) ==> key !in Read(r, name) && NoDup(Read(r, name))
    ensures NoDup(Read(st, name)) ==> forall x :: x in Read(r, name) <==> x in Read(st, name) && x != key
    ensures forall n :: n != name ==> (n in r <==> n in st) && (n in r ==> r[n] == st[n])
  {
    var un := Read(st, name);
    var idx := IndexOf(un, key);
    if idx == -1 then st
    else
      RemoveAtElements(un, idx);
      st[name := RemoveAt(un, idx)]
  }

  /** `handleResult(listName)` on the status lists: add the key to the list if
      absent, and when the list is `hiddenWords`, take it out of
      `unlearnedWords`. */
  function Mark(st: Storage, l: ListName, key: string): Storage {
    var pushed := PushIfAbsent(st, StorageKey(l), key);
    if l == HiddenWords then SpliceOut(pushed, Unlearned, key) else pushed
  }

  /** The reset button: `localStorage.removeItem` on both list keys. */
  function ResetStore(st: Storage): (r: Storage)
    ensures Read(r, Hidden) == [] && Read(r, Unlearned) == []
    ensures StoreValid(r)
    ensures forall n :: n != Hidden && n != Unlearned ==> (n in r <==> n in st) && (n in r ==> r[n] == st[n])
  {
    st - {Hidden, Unlearned}
  }

  /** Marking keeps both lists free of repeats. */
  lemma MarkKeepsValid(st: Storage, l: ListName, key: string)
    requires StoreValid(st)
    ensures StoreValid(Mark(st, l, key))
  {
    var pushed := PushIfAbsent(st, StorageKey(l), key);
    if l == HiddenWords {
      assert Read(pushed, Unlearned) == Read(st, Unlearned);
      var r := SpliceOut(pushed, Unlearned, key);
      assert Read(r, Hidden) == Read(pushed, Hidden);
    } else {
      assert Read(pushed, Hidden) == Read(st, Hidden);
    }
  }

  /** After a mark the key is in the chosen list, no other storage entry
      changed, and the list gained at most that key, appended at the end. */
  lemma MarkAdds(st: Storage, l: ListName, key: string)
    ensures key in Read(Mark(st, l, key), StorageKey(l))
    ensures Read(st, StorageKey(l)) <= Read(Mark(st, l, key), StorageKey(l))
    ensures forall x :: x in Read(Mark(st, l, key), StorageKey(l)) <==> x in Read(st, StorageKey(l)) || x == key
    ensures forall n :: n != Hidden && n != Unlearned ==> Read(Mark(st, l, key), n) == Read(st, n)
  {
    var name := StorageKey(l);
    var pushed := PushIfAbsent(st, name, key);
    if l == HiddenWords {
      var r := SpliceOut(pushed, Unlearned, key);
      assert Read(r, Hidden) == Read(pushed, Hidden);
      forall n | n != Hidden && n != Unlearned ensures Read(r, n) == Read(st, n) {
        assert Read(r, n) == Read(pushed, n);
      }
    }
  }

  /** Marking the same key twice changes nothing the second time. */
  lemma MarkIdempotent(st: Storage, l: ListName, key: string)
    requires StoreValid(st)
    ensures Mark(Mark(st, l, key), l, key) == Mark(st, l, key)
  {
    var once := Mark(st, l, key);
    var pushed := PushIfAbsent(st, StorageKey(l), key);
    if l == HiddenWords {
      assert key in Read(pushed, Hidden);
      assert Read(once, Hidden) == Read(pushed, Hidden);
      assert PushIfAbsent(once, Hidden, key) == once;
      assert key !in Read(once, Unlearned);
    }
  }

  /** Marking a key known takes it out of the review list, which otherwise
      loses nothing. */
  lemma MarkHiddenClearsUnlearned(st: Storage, key: string)
    requires StoreValid(st)
    ensures key in Read(Mark(st, HiddenWords, key), Hidden)
    ensures key !in Read(Mark(st, HiddenWords, key), Unlearned)
    ensures forall x :: x in Read(Mark(st, HiddenWords, key), Unlearned) <==> x in Read(st, Unlearned) && x != key
  {
    var pushed := PushIfAbsent(st, Hidden, key);
    assert Read(pushed, Unlearned) == Read(st, Unlearned);
  }

  /** The one removal is why the script needs lists without repeats: a key
      stored twice in `unlearnedWords` survives marking it known. */
  lemma MarkHiddenWithRepeatedKey()
    ensures var st := map[Unlearned := ["1_Yes", "1_Yes"]];
            "1_Yes" in Read(Mark(st, HiddenWords, "1_Yes"), Unlearned)
  {
    var st: Storage := map[Unlearned := ["1_Yes", "1_Yes"]];
    var pushed := PushIfAbsent(st, Hidden, "1_Yes");
    assert Read(pushed, Unlearned) == ["1_Yes", "1_Yes"];
    assert IndexOf(["1_Yes", "1_Yes"], "1_Yes") == 0;
    assert RemoveAt(["1_Yes", "1_Yes"], 0) == ["1_Yes"];
  }

  /** Marking a key for review never touches `hiddenWords`: a known key
      marked for review stays known as well. */
  lemma MarkUnlearnedKeepsHidden(st: Storage, key: string)
    ensures Read(Mark(st, UnlearnedWords, key), Hidden) == Read(st, Hidden)
    ensures key in Read(Mark(st, UnlearnedWords, key), Unlearned)
  {
  }

  /** So the two lists are disjoint only as far as the "known" direction
      keeps them: marking a known key for review puts it in both. */
  lemma MarkUnlearnedCanOverlap(key: string)
    ensures var st := Mark(map[Hidden := [key]], UnlearnedWords, key);
            key in Read(st, Hidden) && key in Read(st, Unlearned)
  {
  }
}

/**
 * One provider's key pool as the handlers change it: the key sets and the
 * active index (the data secret), the active key (the provider's own secret),
 * the recycle bin, and the auto-switching switch.
 */
module Pool {

  import opened Wrappers
  import Seqs
  import KeyText
  import opened PoolData
  import Rotation
  import ErrorSignal

  /** A recycle-bin entry: the evicted key, the name of its set, why, and when (an opaque timestamp). */
  datatype RecycleEntry = RecycleEntry(key: string, setName: string, reason: string, removedAt: string)

  /** What a set-name prompt or edit came to. */
  datatype NameOutcome = Accepted | Cancelled | EmptyName | DuplicateName | Unchanged | ReadOnly

  /** Some set other than the one at `except` is already called `name`. */
  predicate NameTaken(sets: seq<KeySet>, name: string, except: int) {
    exists i :: 0 <= i < |sets| && i != except && sets[i].name == name
  }

  /** The bin entry with this key and removal time, matched the way the bin buttons do: the first such entry, or -1. */
  function EntryIndex(bin: seq<RecycleEntry>, key: string, removedAt: string): (r: int)
    ensures -1 <= r < |bin|
    ensures r == -1 <==> forall j :: 0 <= j < |bin| ==> !(bin[j].key == key && bin[j].removedAt == removedAt)
    ensures r >= 0 ==> bin[r].key == key && bin[r].removedAt == removedAt
    ensures r >= 0 ==> forall j :: 0 <= j < r ==> !(bin[j].key == key && bin[j].removedAt == removedAt)
  {
    Seqs.FirstIndexWhere(bin, (e: RecycleEntry) => e.key == key && e.removedAt == removedAt)
  }

  /** The set a restore goes to: the first set with the entry's set name, or else the active set. */
  function RestoreTarget(sets: seq<KeySet>, active: int, name: string): (t: int)
    requires 0 <= active < |sets|
    ensures 0 <= t < |sets|
    ensures (exists i :: 0 <= i < |sets| && sets[i].name == name) ==>
      sets[t].name == name && forall i :: 0 <= i < t ==> sets[i].name != name
    ensures (forall i :: 0 <= i < |sets| ==> sets[i].name != name) ==> t == active
  {
    var i := Seqs.FirstIndexWhere(sets, (s: KeySet) => s.name == name);
    if i == -1 then active else i
  }

  /** The keys left after a removal are still keys, so storing them joined and reading them back gives them again. */
  lemma RemainingKeysRoundTrip(keys: seq<string>, i: int)
    requires KeyText.AllKeys(keys) && 0 <= i < |keys|
    ensures KeyText.AllKeys(Seqs.RemoveAt(keys, i))
    ensures KeyText.SplitKeys(KeyText.Join(Seqs.RemoveAt(keys, i))) == Seqs.RemoveAt(keys, i)
  {
    KeyText.SplitJoin(Seqs.RemoveAt(keys, i));
  }

  /** Set `s` after restoring `key` into it: the key is appended to its key text unless it is already one of its keys. */
  function WithKey(s: KeySet, key: string): (r: KeySet)
    ensures r.name == s.name
    ensures key in KeysOf(s) ==> r == s
  {
    var ks := KeysOf(s);
    if key in ks then s else KeySet(s.name, KeyText.Join(ks + [key]))
  }

  /** Restoring a well-formed key into a set gives that set the restored key list. */
  lemma WithKeyKeys(s: KeySet, key: string)
    requires KeyText.IsKey(key)
    ensures KeysOf(WithKey(s, key)) == Rotation.RestoredKeys(KeysOf(s), key)
  {
    var ks := KeysOf(s);
    if key !in ks {
      KeyText.SplitJoin(ks + [key]);
    }
  }

  class ProviderPool {
    var sets: seq<KeySet>
    var activeSetIndex: int
    /** The provider's active secret; "" when none is set. */
    var activeKey: string
    var bin: seq<RecycleEntry>
    var switchingEnabled: bool
    /** How many times the active secret has been written. */
    var keyWrites: nat

    ghost predicate Valid()
      reads this
    {
      Repaired(PoolData(activeSetIndex, sets))
    }

    function Data(): PoolData
      reads this
    {
      PoolData(activeSetIndex, sets)
    }

    function ActiveKeys(): seq<string>
      reads this
      requires Valid()
    {
      KeysOf(sets[activeSetIndex])
    }

    /**
     * The pool as the handlers find it: the data secret repaired by
     * `loadSetData`, and the bin from storage (`None` when it is missing or
     * does not parse, which reads as an empty bin).
     */
    constructor (parsed: Option<RawPool>, storedBin: Option<seq<RecycleEntry>>, key: string, enabled: bool)
      ensures Valid()
      ensures activeKey == key && switchingEnabled == enabled && keyWrites == 0
      ensures bin == storedBin.GetOr([])
      ensures Data() == LoadedData(parsed)
    {
      var d := LoadSetData(parsed);
      sets, activeSetIndex := d.sets, d.activeSetIndex;
      activeKey, switchingEnabled, keyWrites := key, enabled, 0;
      bin := storedBin.GetOr([]);
    }

    /** `setActiveKey`: the secret is written only when it changes. */
    method SetActiveKey(k: string)
      modifies this
      ensures activeKey == k
      ensures keyWrites == old(keyWrites) + if k != old(activeKey) then 1 else 0
      ensures sets == old(sets) && activeSetIndex == old(activeSetIndex) && bin == old(bin)
      ensures switchingEnabled == old(switchingEnabled)
    {
      if activeKey != k {
        activeKey := k;
        keyWrites := keyWrites + 1;
      }
    }

    /** The "Toggle Auto Switching/Removal" button. */
    method ToggleSwitching()
      modifies this
      ensures switchingEnabled == !old(switchingEnabled)
      ensures sets == old(sets) && activeSetIndex == old(activeSetIndex) && bin == old(bin)
      ensures activeKey == old(activeKey) && keyWrites == old(keyWrites)
    {
      switchingEnabled := !switchingEnabled;
    }

    /**
     * `handleKeyRotation`: with the secrets readable and switching on, install
     * the rotated key of the active set, writing the secret only when it
     * changes. The key sets are never touched.
     */
    method Rotate(secretsLoaded: bool)
      requires Valid()
      modifies this
      ensures Valid()
      ensures sets == old(sets) && activeSetIndex == old(activeSetIndex) && bin == old(bin)
      ensures switchingEnabled == old(switchingEnabled)
      ensures activeKey == if secretsLoaded && switchingEnabled
                           then Rotation.RotatedKey(old(ActiveKeys()), old(activeKey))
                           else old(activeKey)
      ensures keyWrites == old(keyWrites) + if activeKey != old(activeKey) then 1 else 0
    {
      if !secretsLoaded || !switchingEnabled {
        return;
      }
      RotateWithin(KeyText.SplitKeys(sets[activeSetIndex].keys));
    }

    /**
     * The rotation proper, over the keys of the active set: a single key is
     * installed, an empty set clears the active key, and otherwise the key after
     * the current one (wrapping, or the first when the current one is not in
     * the set) is installed; the secret is written only when it changes.
     */
    method RotateWithin(keys: seq<string>)
      requires KeyText.AllKeys(keys)
      modifies this
      ensures activeKey == Rotation.RotatedKey(keys, old(activeKey))
      ensures keyWrites == old(keyWrites) + if activeKey != old(activeKey) then 1 else 0
      ensures sets == old(sets) && activeSetIndex == old(activeSetIndex) && bin == old(bin)
      ensures switchingEnabled == old(switchingEnabled)
    {
      var current := activeKey;
      ghost var target := Rotation.RotatedKey(keys, current);
      if |keys| <= 1 {
        if |keys| == 1 {
          assert target == keys[0];
          if current != keys[0] {
            SetActiveKey(keys[0]);
          }
        } else if current != "" {
          SetActiveKey("");
        }
        return;
      }
      var i := Seqs.IndexOf(keys, current);
      var newKey := if i != -1 then keys[Rotation.Wrap(i + 1, |keys|)] else keys[0];
      assert newKey == target && KeyText.IsKey(newKey);
      if newKey != "" && newKey != current {
        SetActiveKey(newKey);
      }
    }

    /**
     * `handleKeyRemoval`: take the first occurrence of `failedKey` out of the
     * active set, record it in the bin, and activate the key that moved into its
     * place (wrapping around), or clear the active key when the set is empty.
     * Returns the activated key, or `None` when nothing was removed. The bin
     * entry is stored before the set data, so a failed save of the set data
     * leaves the entry in the bin and everything else as it was.
     */
    method Remove(failedKey: string, reason: string, removedAt: string, secretsLoaded: bool, saveSucceeds: bool)
      returns (activated: Option<string>)
      requires Valid()
      modifies this
      ensures Valid()
      ensures activeSetIndex == old(activeSetIndex) && switchingEnabled == old(switchingEnabled)
      ensures !secretsLoaded || failedKey !in old(ActiveKeys()) ==> activated.None? && unchanged(this)
      ensures secretsLoaded && failedKey in old(ActiveKeys()) ==>
        bin == old(bin) + [RecycleEntry(failedKey, old(sets[activeSetIndex].name), reason, removedAt)]
      ensures secretsLoaded && failedKey in old(ActiveKeys()) && !saveSucceeds ==>
        activated.None? && sets == old(sets) && activeKey == old(activeKey) && keyWrites == old(keyWrites)
      ensures secretsLoaded && failedKey in old(ActiveKeys()) && saveSucceeds ==>
        var ks := old(ActiveKeys());
        var i := Seqs.IndexOf(ks, failedKey);
        var rest := Seqs.RemoveAt(ks, i);
        sets == old(sets)[activeSetIndex := KeySet(old(sets[activeSetIndex].name), KeyText.Join(rest))] &&
        ActiveKeys() == rest &&
        activeKey == Rotation.KeyAfterRemoval(rest, i) && activated == Some(activeKey) &&
        keyWrites == old(keyWrites) + (if activeKey != old(activeKey) then 1 else 0)
    {
      if !secretsLoaded {
        return None;
      }
      var keys := KeyText.SplitKeys(sets[activeSetIndex].keys);
      assert keys == ActiveKeys();
      var i := Seqs.IndexOf(keys, failedKey);
      if i == -1 {
        assert failedKey !in keys;
        return None;
      }
      assert failedKey in keys;
      var setName := sets[activeSetIndex].name;
      bin := bin + [RecycleEntry(failedKey, setName, reason, removedAt)];
      if !saveSucceeds {
        return None;
      }
      var newKey := CommitRemoval(keys, i);
      activated := Some(newKey);
    }

    /**
     * The successful half of a removal: store the active set's keys without
     * the one at `i`, then activate the key that moved into its place.
     */
    method CommitRemoval(keys: seq<string>, i: int) returns (newKey: string)
      requires Valid() && keys == ActiveKeys() && 0 <= i < |keys|
      modifies this
      ensures Valid()
      ensures activeSetIndex == old(activeSetIndex) && bin == old(bin) && switchingEnabled == old(switchingEnabled)
      ensures sets == old(sets)[activeSetIndex := KeySet(old(sets[activeSetIndex].name), KeyText.Join(Seqs.RemoveAt(keys, i)))]
      ensures ActiveKeys() == Seqs.RemoveAt(keys, i)
      ensures newKey == activeKey == Rotation.KeyAfterRemoval(Seqs.RemoveAt(keys, i), i)
      ensures keyWrites == old(keyWrites) + (if activeKey != old(activeKey) then 1 else 0)
    {
      var rest := Seqs.RemoveAt(keys, i);
      RemainingKeysRoundTrip(keys, i);
      StoreActiveKeys(rest);
      newKey := Rotation.KeyAfterRemoval(rest, i);
      SetActiveKey(newKey);
    }

    /** Store `ks`, joined by line feeds, as the active set's key text; reading it back gives `ks`. */
    method StoreActiveKeys(ks: seq<string>)
      requires Valid() && KeyText.AllKeys(ks)
      modifies this
      ensures Valid()
      ensures activeSetIndex == old(activeSetIndex) && bin == old(bin) && switchingEnabled == old(switchingEnabled)
      ensures activeKey == old(activeKey) && keyWrites == old(keyWrites)
      ensures sets == old(sets)[activeSetIndex := KeySet(old(sets[activeSetIndex].name), KeyText.Join(ks))]
      ensures ActiveKeys() == ks
    {
      KeyText.SplitJoin(ks);
      sets := sets[activeSetIndex := KeySet(sets[activeSetIndex].name, KeyText.Join(ks))];
    }

    /**
     * The bin's Restore button: find the entry by key and removal time, put the
     * key back at the end of the set it came from (or of the active set when no
     * set has that name any more) unless it is already there, and drop the
     * entry from the bin. Returns false when the entry is gone or the secrets
     * cannot be read, and then nothing changes.
     */
    method Restore(key: string, removedAt: string, secretsLoaded: bool) returns (restored: bool)
      requires Valid()
      modifies this
      ensures Valid()
      ensures restored <==> secretsLoaded && EntryIndex(old(bin), key, removedAt) != -1
      ensures !restored ==> unchanged(this)
      ensures activeSetIndex == old(activeSetIndex) && activeKey == old(activeKey)
      ensures keyWrites == old(keyWrites) && switchingEnabled == old(switchingEnabled)
      ensures restored ==> bin == Seqs.RemoveAt(old(bin), EntryIndex(old(bin), key, removedAt))
      ensures restored ==>
        var t := RestoreTarget(old(sets), old(activeSetIndex), old(bin)[EntryIndex(old(bin), key, removedAt)].setName);
        sets == old(sets)[t := WithKey(old(sets)[t], key)] &&
        (KeyText.IsKey(key) ==> KeysOf(sets[t]) == Rotation.RestoredKeys(KeysOf(old(sets)[t]), key))
    {
      var e := EntryIndex(bin, key, removedAt);
      if e == -1 || !secretsLoaded {
        return false;
      }
      var t := RestoreTarget(sets, activeSetIndex, bin[e].setName);
      RestoreInto(t, key);
      bin := Seqs.RemoveAt(bin, e);
      restored := true;
    }

    /** Append `key` to the key text of set `t` unless it is already one of its keys. */
    method RestoreInto(t: int, key: string)
      requires Valid() && 0 <= t < |sets|
      modifies this
      ensures Valid()
      ensures sets == old(sets)[t := WithKey(old(sets)[t], key)]
      ensures KeyText.IsKey(key) ==> KeysOf(sets[t]) == Rotation.RestoredKeys(KeysOf(old(sets)[t]), key)
      ensures activeSetIndex == old(activeSetIndex) && bin == old(bin) && activeKey == old(activeKey)
      ensures keyWrites == old(keyWrites) && switchingEnabled == old(switchingEnabled)
    {
      var target := sets[t];
      if KeyText.IsKey(key) {
        WithKeyKeys(target, key);
      }
      if key !in KeysOf(target) {
        sets := sets[t := WithKey(target, key)];
      }
    }

    /** The bin's Delete Permanently button: drop the matched entry once confirmed; no set changes. */
    method DeletePermanently(key: string, removedAt: string, confirmed: bool) returns (deleted: bool)
      requires Valid()
      modifies this
      ensures Valid()
      ensures deleted <==> confirmed && EntryIndex(old(bin), key, removedAt) != -1
      ensures !deleted ==> unchanged(this)
      ensures deleted ==> bin == Seqs.RemoveAt(old(bin), EntryIndex(old(bin), key, removedAt))
      ensures sets == old(sets) && activeSetIndex == old(activeSetIndex)
      ensures activeKey == old(activeKey) && keyWrites == old(keyWrites) && switchingEnabled == old(switchingEnabled)
    {
      var e := EntryIndex(bin, key, removedAt);
      if e == -1 || !confirmed {
        return false;
      }
      bin := Seqs.RemoveAt(bin, e);
      deleted := true;
    }

    /**
     * The Add New Set button. `answer` is what the prompt returned (`None` when
     * cancelled); the trimmed name must be non-empty and not taken.
     */
    method AddSet(answer: Option<string>) returns (outcome: NameOutcome)
      requires Valid()
      modifies this
      ensures Valid()
      ensures outcome == Cancelled <==> answer.None?
      ensures outcome == EmptyName <==> answer.Some? && KeyText.Trim(answer.value) == ""
      ensures outcome == DuplicateName <==>
        answer.Some? && KeyText.Trim(answer.value) != "" && NameTaken(old(sets), KeyText.Trim(answer.value), -1)
      ensures outcome in {Accepted, Cancelled, EmptyName, DuplicateName}
      ensures UniqueNames(old(sets)) ==> UniqueNames(sets)
      ensures outcome == Accepted ==>
        sets == old(sets) + [KeySet(KeyText.Trim(answer.value), "")] &&
        activeSetIndex == old(activeSetIndex) && bin == old(bin) && activeKey == old(activeKey) &&
        keyWrites == old(keyWrites) && switchingEnabled == old(switchingEnabled)
      ensures outcome != Accepted ==> unchanged(this)
    {
      if answer.None? {
        return Cancelled;
      }
      var name := KeyText.Trim(answer.value);
      if name == "" {
        return EmptyName;
      }
      if exists i :: 0 <= i < |sets| && sets[i].name == name {
        return DuplicateName;
      }
      ghost var before := sets;
      sets := sets + [KeySet(name, "")];
      if UniqueNames(before) {
        forall i, j | 0 <= i < j < |sets| ensures sets[i].name != sets[j].name {
          assert sets[i] == before[i];
        }
      }
      outcome := Accepted;
    }

    /**
     * Renaming set `j` by editing its name field. The active set's field is
     * read-only; an empty or unchanged name restores the old one; a name another
     * set already has is refused.
     */
    method RenameSet(j: int, value: string) returns (outcome: NameOutcome)
      requires Valid() && 0 <= j < |sets|
      modifies this
      ensures Valid()
      ensures outcome == ReadOnly <==> j == old(activeSetIndex)
      ensures outcome == Accepted <==>
        j != old(activeSetIndex) && KeyText.Trim(value) != "" && KeyText.Trim(value) != old(sets[j].name) &&
        !NameTaken(old(sets), KeyText.Trim(value), j)
      ensures outcome in {Accepted, DuplicateName, Unchanged, ReadOnly}
      ensures UniqueNames(old(sets)) ==> UniqueNames(sets)
      ensures outcome == Accepted ==>
        sets == old(sets)[j := KeySet(KeyText.Trim(value), old(sets[j].keys))] &&
        activeSetIndex == old(activeSetIndex) && bin == old(bin) && activeKey == old(activeKey) &&
        keyWrites == old(keyWrites) && switchingEnabled == old(switchingEnabled)
      ensures outcome != Accepted ==> unchanged(this)
    {
      if j == activeSetIndex {
        return ReadOnly;
      }
      var name := KeyText.Trim(value);
      if name != "" && name != sets[j].name {
        if exists i :: 0 <= i < |sets| && i != j && sets[i].name == name {
          return DuplicateName;
        }
        sets := sets[j := KeySet(name, sets[j].keys)];
        return Accepted;
      }
      return Unchanged;
    }

    /**
     * The Delete button of set `j`, once confirmed. Its "disabled" flag sits on
     * a `div` and does not stop the click, so the only set can be deleted too,
     * and a fresh default set takes its place. Afterwards a rotation runs.
     */
    method DeleteSet(j: int, confirmed: bool, secretsLoaded: bool)
      requires Valid() && 0 <= j < |sets|
      modifies this
      ensures Valid()
      ensures !confirmed ==> unchanged(this)
      ensures confirmed ==>
        Data() == AfterDelete(old(Data()), j) &&
        bin == old(bin) && switchingEnabled == old(switchingEnabled) &&
        activeKey == (if secretsLoaded && switchingEnabled
                      then Rotation.RotatedKey(ActiveKeys(), old(activeKey))
                      else old(activeKey)) &&
        keyWrites == old(keyWrites) + (if activeKey != old(activeKey) then 1 else 0)
    {
      if !confirmed {
        return;
      }
      sets := sets[..j] + sets[j + 1..];
      if activeSetIndex == j {
        activeSetIndex := 0;
      } else if activeSetIndex > j {
        activeSetIndex := activeSetIndex - 1;
      }
      if |sets| == 0 {
        sets := sets + [KeySet(DefaultSetName, "")];
        activeSetIndex := 0;
      }
      if secretsLoaded {
        Rotate(secretsLoaded);
      }
    }

    /** The Activate button of set `j`: make it the active set, then rotate within it. */
    method ActivateSet(j: int, secretsLoaded: bool)
      requires Valid() && 0 <= j < |sets|
      modifies this
      ensures Valid()
      ensures activeSetIndex == j && sets == old(sets) && bin == old(bin)
      ensures switchingEnabled == old(switchingEnabled)
      ensures activeKey == if secretsLoaded && switchingEnabled
                           then Rotation.RotatedKey(KeysOf(sets[j]), old(activeKey))
                           else old(activeKey)
      ensures keyWrites == old(keyWrites) + if activeKey != old(activeKey) then 1 else 0
    {
      activeSetIndex := j;
      Rotate(secretsLoaded);
    }

    /**
     * Leaving the key text of set `j`: when the normalised key list differs
     * from the stored one, store it joined by line feeds and, for the active
     * set, rotate. Either way the set then holds exactly the keys of `text`.
     */
    method EditKeys(j: int, text: string, secretsLoaded: bool) returns (changed: bool)
      requires Valid() && 0 <= j < |sets|
      modifies this
      ensures Valid()
      ensures |sets| == old(|sets|)
      ensures changed <==> KeysOf(old(sets[j])) != KeyText.SplitKeys(text)
      ensures KeysOf(sets[j]) == KeyText.SplitKeys(text)
      ensures !changed ==> unchanged(this)
      ensures changed ==>
        sets == old(sets)[j := KeySet(old(sets[j].name), KeyText.Join(KeyText.SplitKeys(text)))] &&
        activeSetIndex == old(activeSetIndex) && bin == old(bin) && switchingEnabled == old(switchingEnabled) &&
        activeKey == (if j == activeSetIndex && secretsLoaded && switchingEnabled
                      then Rotation.RotatedKey(KeyText.SplitKeys(text), old(activeKey))
                      else old(activeKey)) &&
        keyWrites == old(keyWrites) + (if activeKey != old(activeKey) then 1 else 0)
    {
      var newKeys := KeyText.SplitKeys(text);
      var normalized := KeyText.Join(newKeys);
      var current := KeyText.Join(KeyText.SplitKeys(sets[j].keys));
      KeyText.NormalisedTextsAgree(sets[j].keys, text);
      KeyText.SplitJoin(newKeys);
      if current == normalized {
        return false;
      }
      sets := sets[j := KeySet(sets[j].name, normalized)];
      if j == activeSetIndex {
        Rotate(secretsLoaded);
      }
      changed := true;
    }

    /**
     * The `toastr.error` interceptor for this provider: decide from the message,
     * then remove the active key or rotate. Reports whether a key was removed
     * and which one.
     */
    method HandleError(message: string, embedded: Option<string>, removedAt: string, secretsLoaded: bool, saveSucceeds: bool)
      returns (keyRemoved: bool, removedKey: Option<string>)
      requires Valid()
      modifies this
      ensures Valid()
      ensures activeSetIndex == old(activeSetIndex) && switchingEnabled == old(switchingEnabled)
      ensures ErrorSignal.Decide(old(activeKey), old(switchingEnabled), message, embedded).Skip? ==>
        !keyRemoved && unchanged(this)
      ensures ErrorSignal.Decide(old(activeKey), old(switchingEnabled), message, embedded).RotateKey? ==>
        !keyRemoved && sets == old(sets) && bin == old(bin) &&
        activeKey == (if secretsLoaded then Rotation.RotatedKey(old(ActiveKeys()), old(activeKey)) else old(activeKey)) &&
        keyWrites == old(keyWrites) + (if activeKey != old(activeKey) then 1 else 0)
      ensures ErrorSignal.Decide(old(activeKey), old(switchingEnabled), message, embedded).RemoveKey? ==>
        (!secretsLoaded || old(activeKey) !in old(ActiveKeys()) ==> !keyRemoved && unchanged(this))
      ensures ErrorSignal.Decide(old(activeKey), old(switchingEnabled), message, embedded).RemoveKey? ==>
        var reason := ErrorSignal.Decide(old(activeKey), old(switchingEnabled), message, embedded).reason;
        secretsLoaded && old(activeKey) in old(ActiveKeys()) ==>
          bin == old(bin) + [RecycleEntry(old(activeKey), old(sets[activeSetIndex].name), reason, removedAt)]
      ensures ErrorSignal.Decide(old(activeKey), old(switchingEnabled), message, embedded).RemoveKey? ==>
        secretsLoaded && old(activeKey) in old(ActiveKeys()) && !saveSucceeds ==>
          !keyRemoved && sets == old(sets) && activeKey == old(activeKey) && keyWrites == old(keyWrites)
      ensures ErrorSignal.Decide(old(activeKey), old(switchingEnabled), message, embedded).RemoveKey? ==>
        secretsLoaded && old(activeKey) in old(ActiveKeys()) && saveSucceeds ==>
          var ks := old(ActiveKeys());
          var i := Seqs.IndexOf(ks, old(activeKey));
          var rest := Seqs.RemoveAt(ks, i);
          keyRemoved &&
          sets == old(sets)[activeSetIndex := KeySet(old(sets[activeSetIndex].name), KeyText.Join(rest))] &&
          ActiveKeys() == rest &&
          activeKey == Rotation.KeyAfterRemoval(rest, i) &&
          keyWrites == old(keyWrites) + (if activeKey != old(activeKey) then 1 else 0)
      ensures keyRemoved ==>
        removedKey == Some(old(activeKey)) && |ActiveKeys()| == |old(ActiveKeys())| - 1
      ensures !keyRemoved ==> removedKey.None?
    {
      keyRemoved, removedKey := false, None;
      var failedKey := activeKey;
      var decision := ErrorSignal.Decide(failedKey, switchingEnabled, message, embedded);
      match decision {
        case Skip =>
        case RotateKey =>
          Rotate(secretsLoaded);
        case RemoveKey(reason) =>
          var activated := Remove(failedKey, reason, removedAt, secretsLoaded, saveSucceeds);
          if activated.Some? {
            keyRemoved, removedKey := true, Some(failedKey);
          }
      }
    }
  }
}

# Key pool of the multi-provider key switcher

This project models the engine of `KeySwitcher.js` that manages API keys, one pool per
provider. It is written in Dafny.

A pool holds several named key sets. One of them is the active set, and one key is the
provider's active key. When an API error is reported, the engine may do one of two things:

- **Rotate**: activate the next key of the active set, wrapping around.
- **Remove**: evict the failing key into a per-provider recycle bin, then activate the key
  that took its place.

From the bin a key can be restored into the set it came from, or deleted for good. The
management handlers add, rename, activate and delete sets and edit their key text.

Per-provider error-code preferences map a status code to rotate, remove or nothing. They
are loaded, repaired and updated by checkboxes.

The model is organised as follows.

- `Wrappers`, `Seqs`: `Option`, and the array operations the source uses.
  - `findIndex` and `indexOf` give the first match or -1.
  - `splice(i, 1)` removes one element.
- `KeyText`: how key text is read and written.
  - `String.prototype.trim`, using its full white-space set.
  - `splitKeys`, which splits on `\n` or `;`, trims, and drops empty pieces.
  - `join('\n')`.
  - The round trip between them.
- `Decimal`: `String(n)` and `parseInt` of a digit string.
- `PoolData`: the key-set data stored in the provider's data secret.
  - `getDefaultSetData`.
  - `loadSetData`, with its repairs, as a loop over the parsed sets.
  - What the delete handler does to the data.
- `ErrorPrefs`:
  - `loadErrorCodePrefs`, as a loop over the provider's codes.
  - `getErrorCodeAction`.
  - The checkbox handler.
  - The code tables of the six providers.
- `ErrorSignal`: the decision the `toastr.error` interceptor makes.
  - The leftmost `\b\d{3}\b` status code.
  - The case-insensitive removal words.
  - The reason text.
- `Rotation`: specification functions and lemmas for the rotation, removal and restore rules.
- `Pool`: the class `ProviderPool`, which holds one provider's state and the handlers that
  change it.
  - The state is the sets, the active index, the active key, the bin and the switching flag.
  - It also counts how often the active secret was written.
  - Each handler method is proved against the specification functions above.

The model follows the code as written, including where it does less than such an engine is usually expected to:

- The interceptor scans the error message only, never the title.
- It has no cooldown and no single-admission lock.
- It never consults the stored error-code preferences. It decides from the fixed removal
  codes and words alone, so `ErrorPrefs.ActionFor` is modelled but not used by
  `HandleError`.
- Removal does not itself check the switching flag. Only the interceptor does.
- Rotation forms a cycle only when the keys of a set are distinct. `indexOf` always picks the
  first occurrence of a duplicate, so duplicates break the cycle, as
  `Rotation.DuplicateKeysBreakTheCycle` shows.
- The delete button's `disabled` flag is set on a `div` and does not stop clicks. Deleting
  the only set is therefore reachable: it leaves a fresh `Default` set, which
  `PoolData.AfterDelete` states.

## Model

| member | source | states |
|---|---|---|
| Seqs.FirstIndexWhere | KeySwitcher.js:745 | `findIndex`: -1 exactly when no element satisfies the predicate; otherwise the first index that does |
| Seqs.IndexOf | KeySwitcher.js:435 | `indexOf`: -1 exactly when the value is absent; otherwise the first position holding it |
| Seqs.RemoveAt | KeySwitcher.js:542 | `splice(i, 1)`: one element shorter; elements before `i` stay, later ones shift down by one |
| Seqs.RemoveAtMultiset | KeySwitcher.js:542 | the splice loses exactly the element at `i`: the remainder plus that element is the original multiset |
| KeyText.Trim | KeySwitcher.js:364 | `trim`: the result is the slice of the input left after removing white space at both ends (everything cut off is white space); it has no white space at either end; it is empty iff the input is all white space; trimmed input is unchanged; no separator is introduced |
| KeyText.Pieces | KeySwitcher.js:364 | `split(/[\n;]/)`: at least one piece, and no piece contains a separator |
| KeyText.PiecesAtSeparator | KeySwitcher.js:364 | splitting at a separator character splits the text into the pieces before it followed by the pieces after it |
| KeyText.TrimmedNonEmpty | KeySwitcher.js:364 | `map(trim).filter(length > 0)`: never more keys than pieces, and every result is a key |
| KeyText.TrimmedNonEmptyAppend | KeySwitcher.js:364 | trimming and filtering distributes over concatenation of piece lists |
| KeyText.SplitKeys | KeySwitcher.js:362-365 | `splitKeys`: every element is a non-empty, trimmed, separator-free key |
| KeyText.SplitKeysIsPipeline | KeySwitcher.js:362-365 | `splitKeys` is `split`, then `trim` of each piece, then dropping the empty ones |
| KeyText.SplitKeysAtSeparator | KeySwitcher.js:362-365 | the keys of a text with a `\n` or `;` in it are the keys before that character followed by the keys after it |
| KeyText.SplitKeysOfSeparatorFree | KeySwitcher.js:362-365 | text without a separator yields no key when it is all white space and otherwise exactly one key, its trimmed form |
| KeyText.PiecesOfJoin | KeySwitcher.js:545 | `join('\n')` of a non-empty list of separator-free strings splits back into exactly those strings |
| KeyText.Join | KeySwitcher.js:545 | `join('\n')`: empty for no keys; otherwise it starts with the first key, followed by a line feed when more keys follow; when no key holds a separator, every separator in the result is a line feed; splitting it back is `PiecesOfJoin` and `SplitJoin` |
| KeyText.SplitJoin | KeySwitcher.js:545 | a list of keys joined with line feeds and split again is the same list |
| KeyText.SplitJoinSplit | KeySwitcher.js:958-960 | normalising key text is idempotent: splitting the joined split of any text gives that split again |
| KeyText.NormalisedTextsAgree | KeySwitcher.js:958-963 | the edit handler's comparison of normalised strings holds iff the two key lists are equal |
| Decimal.DigitsValue | KeySwitcher.js:1030 | `parseInt(_, 10)` of a digit run: the value is below 10 to the power of the run's length, and a single digit is its own value |
| Decimal.DecimalString | KeySwitcher.js:238 | `String(n)`: non-empty decimal digits without a leading zero whose value is `n` |
| Decimal.DigitsRoundTrip | KeySwitcher.js:1030 | a digit run without a leading zero, read with `parseInt` and written with `String`, comes back unchanged |
| PoolData.DefaultSetData | KeySwitcher.js:313-318 | the default data is exactly one set named "Default" with no keys, at active index 0, and is well formed |
| PoolData.FillSet | KeySwitcher.js:347-350 | a present name or key text is kept; a missing element or field becomes `Unnamed Set` or `""` |
| PoolData.LoadedData | KeySwitcher.js:321-352 | the pool `loadSetData` yields: well formed; the default for missing, unparsable, malformed or empty data; otherwise one filled-in set per stored element and the stored index, or 0 when out of range |
| PoolData.LoadStored | KeySwitcher.js:321-352 | loading stored well-formed data gives that data back |
| PoolData.LoadSetData | KeySwitcher.js:321-352 | the loop builds exactly `LoadedData` of the parsed value, so loading stored well-formed data gives it back |
| PoolData.AfterDelete | KeySwitcher.js:919-923 | the set is spliced out; the active index becomes 0 if the active set was deleted, drops by one if a set before it was deleted, and is kept otherwise, so the active set stays active; deleting the only set leaves the default data; unique names stay unique |
| ErrorPrefs.NormalizedPrefs | KeySwitcher.js:179-208 | every provider code has a valid action; valid stored values are kept; invalid or missing ones become `none`; other stored entries are untouched; unparsable storage counts as empty |
| ErrorPrefs.NormalizedPrefsIdempotent | KeySwitcher.js:179-208 | loading preferences that were saved after repair changes nothing |
| ErrorPrefs.LoadErrorCodePrefs | KeySwitcher.js:199-206 | the repair loop yields exactly the normalised preferences |
| ErrorPrefs.RepairStep | KeySwitcher.js:201-205 | one pass of the repair loop extends the repaired prefix by one code: keys are the stored ones plus the codes seen, other entries stay as stored, and seen codes hold their normalised value |
| ErrorPrefs.ActionFor | KeySwitcher.js:230-242 | no code gives no action; otherwise rotate (remove) exactly when the stored value under the code's decimal text is `rotate` (`remove`) |
| ErrorPrefs.ProviderCodesWellFormed | KeySwitcher.js:103-171 | each provider table lists 4xx and 5xx codes as three-digit texts that `String` writes for their values, in strictly ascending order |
| ErrorPrefs.CheckboxPrefs | KeySwitcher.js:1200-1208 | the saved preferences are the repaired ones with only the clicked code changed: to the checkbox's action when checked, to `none` when cleared; every provider code still holds a valid value |
| ErrorPrefs.CheckboxThenLookup | KeySwitcher.js:1200-1208 | after a checkbox write, that code's action is the checked action (none when cleared), and every other code's action is unchanged |
| ErrorSignal.FindCodeFrom | KeySwitcher.js:1028 | the regular-expression scan: the first position at or after `from` with a three-digit token, or none if there is no such position |
| ErrorSignal.CodeValueAt | KeySwitcher.js:1030 | `parseInt` of the matched token: hundreds, tens and units of its three digits, below 1000 |
| ErrorSignal.StatusCode | KeySwitcher.js:1028-1030 | no code iff the message has no `\b\d{3}\b` token; otherwise the value of the leftmost token |
| ErrorSignal.ContainsFrom | KeySwitcher.js:247 | true iff the word occurs, ASCII case-insensitively, at or after `from` |
| ErrorSignal.HasRemovalWord | KeySwitcher.js:247 | `REMOVAL_MESSAGE_REGEX.test`: true iff one of the eight words occurs case-insensitively somewhere in the message |
| ErrorSignal.CodePrefix | KeySwitcher.js:1039-1040 | `statusCode ? statusCode + ': ' : ''`: empty iff there is no code or it is 0; otherwise exactly `String` of the code (no leading zero, read back as the code) followed by `: ` |
| ErrorSignal.LineEnd | KeySwitcher.js:1039-1040 | the first line feed at or after `from`, or the end of the string |
| ErrorSignal.FirstLine | KeySwitcher.js:1039-1040 | `split('\n')[0]`: the prefix before the first line feed, or the whole string when it has none |
| ErrorSignal.Truncate | KeySwitcher.js:1039-1040 | `slice(0, n)`: a prefix of at most `n` characters; either exactly `n` long or the whole string |
| ErrorSignal.BuildReason | KeySwitcher.js:1036-1040 | the reason starts with the `code: ` prefix (none for no code or 0); then the embedded `error.message` if non-empty; otherwise the longest prefix of the first line, at most 120 characters, with no line feed |
| ErrorSignal.Decide | KeySwitcher.js:1026-1044 | skip iff no key is active or switching is off; otherwise remove iff the leftmost status code is a removal code or a removal word occurs, with the reason from `BuildReason`; rotate in all other cases |
| Rotation.Wrap | KeySwitcher.js:439 | the wrapped index is below the length |
| Rotation.WrapIsModulo | KeySwitcher.js:439 | the wrap is `% length` for indices up to the length |
| Rotation.RotatedKey | KeySwitcher.js:404-447 | the key rotation installs: none for an empty set; otherwise always a key of the set |
| Rotation.RotationAdvances | KeySwitcher.js:435-440 | with distinct keys, rotating from key `j` gives key `j+1` (wrapping), and never the same key |
| Rotation.RotationSteps | KeySwitcher.js:435-440 | `m` rotations from key `j` land on the key `m` places further round the ring (`RingPosition`, which is `j + m` wrapped once for `m <= n`) |
| Rotation.RotationCycle | KeySwitcher.js:435-440 | with n ≥ 2 distinct keys, n rotations return to the starting key |
| Rotation.SingleKeyRotationIsStable | KeySwitcher.js:405-414 | with one key, rotation installs it and rotating again changes nothing |
| Rotation.DuplicateKeysBreakTheCycle | KeySwitcher.js:435-444 | with keys A, B, A, three rotations from A end at B, not A |
| Rotation.KeyAfterRemoval | KeySwitcher.js:560-569 | the key activated after a removal: none when the set is empty, otherwise a remaining key |
| Rotation.RemovalActivatesSuccessor | KeySwitcher.js:542-569 | the activated key is the removed key's successor; the first key when the last was removed; none when the set emptied |
| Rotation.RestoredKeys | KeySwitcher.js:759-762 | a restore appends the key unless present: the key is in the result, nothing else is added, and the multiset grows by that key alone |
| Rotation.RemoveThenRestore | KeySwitcher.js:542-762 | removing a key and restoring it gives back the same keys; the same multiset when the key occurred once |
| Pool.EntryIndex | KeySwitcher.js:745 | the first bin entry with this key and timestamp, or -1 exactly when there is none |
| Pool.RestoreTarget | KeySwitcher.js:750-755 | the first set carrying the entry's set name; the active set when no set has that name |
| Pool.WithKey | KeySwitcher.js:759-762 | restoring into a set keeps its name, and leaves it as it is when the key is already one of its keys |
| Pool.WithKeyKeys | KeySwitcher.js:759-762 | after restoring a well-formed key, the set's keys are `RestoredKeys` of its old keys |
| Pool.RemainingKeysRoundTrip | KeySwitcher.js:542-545 | the keys left after a splice are still keys, and storing them joined reads back the same list |
| Pool.ProviderPool.constructor | KeySwitcher.js:486-490 | the pool starts as exactly `LoadedData` of the parsed data secret, with the stored bin or an empty one, and no secret written yet |
| Pool.ProviderPool.SetActiveKey | KeySwitcher.js:572-575 | the secret becomes `k`; it is written (counted) only when it changes; nothing else changes |
| Pool.ProviderPool.ToggleSwitching | KeySwitcher.js:1119 | flips the switching flag and nothing else |
| Pool.ProviderPool.Rotate | KeySwitcher.js:370-472 | nothing happens unless the secrets load and switching is on; then the active key becomes `RotatedKey` of the active set, with one write iff it changed; sets and bin are untouched |
| Pool.ProviderPool.RotateWithin | KeySwitcher.js:404-447 | the active key becomes `RotatedKey` of the given keys, with one secret write iff it changed; nothing else changes |
| Pool.ProviderPool.Remove | KeySwitcher.js:495-598 | absent key or unreadable secrets: nothing changes, result none; otherwise a bin entry is appended; failed save: result none; on success the set holds the keys minus the removed one, and the activated key is `KeyAfterRemoval` |
| Pool.ProviderPool.CommitRemoval | KeySwitcher.js:542-569 | the active set's text becomes the remaining keys joined, reading back exactly those keys; the activated key is `KeyAfterRemoval` and is written iff it changed; bin, index and flag are untouched |
| Pool.ProviderPool.StoreActiveKeys | KeySwitcher.js:545-548 | the active set's text becomes the joined keys, and reading it back gives exactly those keys |
| Pool.ProviderPool.Restore | KeySwitcher.js:743-771 | fails with nothing changed iff the entry is missing or the secrets cannot be read; otherwise the entry leaves the bin and the target set becomes `WithKey` of the key, so for a well-formed key (`IsKey`) its keys are `RestoredKeys`; index, active key and flag are untouched |
| Pool.ProviderPool.RestoreInto | KeySwitcher.js:759-762 | only set `t` changes, to `WithKey`; for a well-formed key (`IsKey`) its keys become `RestoredKeys` of the old ones |
| Pool.ProviderPool.DeletePermanently | KeySwitcher.js:781-793 | removes the matched entry iff it exists and the user confirms; the sets never change |
| Pool.ProviderPool.AddSet | KeySwitcher.js:985-1005 | a cancelled, blank or already-used trimmed name changes nothing; otherwise an empty set with that name is appended; unique names stay unique |
| Pool.ProviderPool.RenameSet | KeySwitcher.js:862-887 | the active set's name is read-only; a blank or unchanged name does nothing; a name another set has is refused; otherwise only that name changes; unique names stay unique |
| Pool.ProviderPool.DeleteSet | KeySwitcher.js:916-941 | if confirmed, the data becomes `AfterDelete`, then the rotation runs on the new active set, with one secret write iff the key changed; if not, nothing changes |
| Pool.ProviderPool.ActivateSet | KeySwitcher.js:900-913 | the chosen set becomes active, the active key is rotated within it with one secret write iff it changed, and the sets and bin are untouched |
| Pool.ProviderPool.EditKeys | KeySwitcher.js:957-981 | afterwards the set holds exactly the keys of the new text; it changes iff the key lists differ, and then the text is the joined keys and an edit of the active set triggers a rotation, with one secret write iff the key changed |
| Pool.ProviderPool.HandleError | KeySwitcher.js:1016-1044 | follows `Decide`: skip changes nothing; rotate does what `Rotate` does; remove does what `Remove` does to the failed key: nothing when it is absent or the secrets are unreadable, a bin entry otherwise, and on a successful save the set loses the key and `KeyAfterRemoval` is activated; the index and switching flag never change |

## Left out

- The panel, info panel, popups, toasts, alerts and the collapse state in local storage are
  left out. The prompt and the confirmation dialogs become parameters (`answer`,
  `confirmed`).
- The active-provider check (`isProviderSource`) is out of scope. The interceptor's loop over
  providers is modelled for the one provider whose source is active.
- `getSecrets` is reduced to a `secretsLoaded` flag. The host's secret store holds a
  provider's active key and data secret, which become fields.
- A missing secret and an empty one are both `""`.
- Writing a secret or local storage is assumed to succeed, except that
  `Pool.ProviderPool.Remove` models a failed `saveSetData` through `saveSucceeds`.
- `JSON.parse` is not modelled. Parsed data arrives as `Option<RawPool>`, a bin as
  `Option<seq<RecycleEntry>>`, preferences as `Option<map<string, string>>`, and the embedded
  `error.message` as `Option<string>`. Non-string field values, a `NaN` or fractional
  `activeSetIndex`, and the greedy `{.*}` extraction are not represented.
- Timestamps are opaque strings supplied by the caller (`removedAt`). The bin's display order
  is not modelled.
- The handlers are asynchronous, and two of them could interleave between a read and a write
  of the same secret. The model runs each handler to completion.
- `ErrorPrefs.ProviderStatuses` records the six providers' code tables as numbers, and
  `ErrorPrefs.ProviderCodes` writes them in decimal, which is how an object literal with
  numeric keys names its properties. The descriptions are left out.
- ErrorSignal.Truncate: lengths count Unicode scalar values (Dafny `char`), while `slice`
  counts UTF-16 code units, so a first line holding characters outside the Basic
  Multilingual Plane is cut at a different place (and `slice` may split a surrogate pair).
- ErrorSignal.BuildReason: the 120-character limit is counted in Unicode scalar values, not
  UTF-16 code units, for the reason given for `ErrorSignal.Truncate`.
- `showErrorPopup`, the model-changed and settings-ready listeners, and provider
  configuration are not part of this model. The listeners only call the rotation modelled
  by `Pool.ProviderPool.Rotate`.
- Pool.ProviderPool.ActivateSet: the source offers the button only for sets other than the
  active one; the model accepts any index and behaves the same.

# Flora Friulana dichotomous key — a Dafny model of the traversal engine

The application lets a user identify a plant within a botanical family by
walking that family's dichotomous key: a table of nodes, each a prompt with
options that lead either to another node (`next`) or to a species
(`speciesId`). This project models the engine behind the page in `app.js`:

- the mutable `current` record (family, key, node table, breadcrumb trail) as
  the class `App.Engine`, with one method per operation that changes it:
  `loadFamily`, the trail side of `renderNode`, `pushToTrail`, `handleOption`,
  the breadcrumb click, `resetAll` and `onFamilyChange`;
- the permalink: `updateHash` (the `fam` / `node` / `sp` tuples) and
  `restoreFromHash`, with the `application/x-www-form-urlencoded` serializer
  and parser of section 5 of the WHATWG URL Standard that `URLSearchParams`
  applies, including UTF-8 encoding and decoding as the WHATWG Encoding
  Standard defines them;
- species lookup by id and `escapeHtml`.

The loaded data (`KEYS_BY_FAMILY`, `SPECIES`) are constants of the engine,
given to its constructor. The engine's `keys` map holds every name whose
lookup `KEYS_BY_FAMILY[name]` is truthy. That includes the names an object
inherits from `Object.prototype` (such as `constructor`) and own keys whose
value is truthy but not an object. Each of those is a key with neither `root`
nor `nodes`, so the code treats it as present but incomplete. DOM output is reduced to what the engine reports:
the message it writes to the status line (`App.Notice`), the species card it
shows, and the fragment it assigns to `location.hash`.

Notable behaviour of the code, which the model keeps:

- A family whose root is not among its nodes is still entered. The family, key
  and table are set and the trail is left empty (`app.js:91-100`, `106-109`).
  It is not rejected with the state left untouched.
- A breadcrumb click also drops the label chosen at the clicked step, because
  that step is entered again as a fresh step.
- `sp` is only acted on when `fam` names a key of the data (`app.js:238-248`).
  The key need not be complete: for a key without `nodes` or `root`, nothing
  is loaded and the species card is still shown.
- After a restore, the fragment written back is the one `loadFamily` wrote: the
  family and its root. It is not the restored node, and it has no species.

## Model

| member | source | states |
|---|---|---|
| `App.Engine.constructor` | app.js:21-28 | the engine starts with no family, no key, an empty table and an empty trail, over the given keys and species |
| `App.Engine.PushToTrail` | app.js:211-216 | the new trail is `Pushed` of the old one |
| `Trail.Pushed` | app.js:211-214 | pushing keeps the old trail as a prefix and grows it by at most one. The trail is unchanged exactly when its last step is already at that node. Otherwise exactly the given step is appended. The last step is always at the pushed node |
| `Trail.PushedKeepsInvariants` | app.js:211-214 | pushing a named node of the table keeps the trail free of consecutive repeats, within the table and with named steps |
| `Trail.PushedIdempotent` | app.js:213 | entering the node just entered again leaves the trail as it is |
| `App.Engine.RenderNode` | app.js:105-112 | an id that is not in the table leaves the trail unchanged and reports "node not found". A known id is pushed as a step with no label. The engine invariant is kept |
| `KeyData.BuildTable` | app.js:93 | the table's keys are exactly the node ids. Each id maps to the last node carrying it (last write wins) |
| `App.Engine.LoadFamily` | app.js:82-103 | a missing key, or a key without `nodes` or with an empty or missing `root`, changes nothing and reports the family. Otherwise family, key and table are replaced, and the trail becomes `[root]`, or empty with "node not found" when the root is not a node. The fragment with the new family and trail is written |
| `App.Engine.OnFamilyChange` | app.js:76-80 | the empty selection resets the engine; any other value has the effect of `LoadFamily` |
| `Trail.Annotated` | app.js:140-142 | annotation keeps the length and every step but the last. The last step records the chosen label |
| `Trail.AnnotatedKeepsInvariants` | app.js:140-142 | annotation keeps every node id, so it keeps the trail invariants |
| `App.Engine.HandleOption` | app.js:138-156 | the last step first records `label` or "" (even for an option with no destination). Then a truthy `next` is entered (at most one step more, or "node not found"). Else a truthy `speciesId` is looked up with the trail otherwise unchanged, and the fragment carries `sp`. Else only the warning is reported |
| `Trail.BacktrackShape` | app.js:201-205 | on a trail without consecutive repeats, cutting to `idx` steps and re-entering step `idx` gives the old prefix plus that node with no label, of length `idx + 1` |
| `App.Engine.Backtrack` | app.js:201-205 | a breadcrumb click keeps `trail[..idx]`, ends at step `idx`'s node with no label, has length `idx + 1`, reports nothing and writes the fragment |
| `App.Engine.ResetAll` | app.js:69-74 | every field is cleared and the empty fragment is written |
| `KeyData.FindSpecies` | app.js:160-163 | the result is the first species with that id; there is none exactly when no species has it |
| `Permalink.HashPairs` | app.js:221-226 | `fam` is present exactly when the family is truthy. `node` is present exactly when the trail's last id is non-empty, and then equals it. `sp` is present only when passed. The list is empty exactly when none applies |
| `Permalink.FragmentRoundTrip` | app.js:221-236 | reading back the written fragment (through `location.hash`, `#` stripped, `URLSearchParams`) gives the same `fam`, `node` and `sp`. It is empty exactly when there were no tuples |
| `Permalink.FragmentStoredVerbatim` | app.js:227 | the fragment is printable ASCII with none of `" < > \`` and does not start with `#`, so `location.hash` stores it unchanged |
| `Permalink.SerializeEmpty` | app.js:227 | the serialized fragment is empty exactly when there are no tuples |
| `App.Engine.RestoreParams` | app.js:238-249 | unless `fam` is truthy and a key of the data, nothing changes. Otherwise the family is loaded (a no-op for an incomplete key). A truthy `node` in the resulting table becomes the whole trail. A truthy `sp` is looked up. The last status message wins. The fragment written is the family with its root trail |
| `App.Engine.EnterAlone` | app.js:241-245 | a node of the table, entered after the trail is emptied, becomes the whole trail with no label, and the engine invariant is kept |
| `App.Engine.RestoreFromHash` | app.js:230-236 | an empty hash (after dropping `#`) changes nothing. Otherwise `fam`, `node` and `sp` are the first values of the parsed fragment, and the effect is `RestoreParams` |
| `App.Reopen` | app.js:221-250 | a fresh engine restored from the fragment of an engine's current state (`e.Fragment(sp)`, what `updateHash` would write now) has the same family, key and table. Its trail is only that engine's last node (or the entry trail when that engine's trail is empty). `sp` is shown only when a family is set |
| `FormUrlencoded.GetSpec` | app.js:234-236 | `get` gives the value of the first tuple with that name, or nothing exactly when no tuple has it |
| `FormUrlencoded.GetFirst` | app.js:234-236 | when tuple `i` is the first with the name, `get` gives its value |
| `FormUrlencoded.ParseSerialize` | app.js:227-233 | parsing the serialized tuples gives back the same list of tuples |
| `FormUrlencoded.DecodeEncodeBytes` | app.js:227-233 | percent-decoding the urlencoded form of a byte string, with `+` read as space, gives back the bytes |
| `FormUrlencoded.DecodeEncodeString` | app.js:227-233 | decoding an encoded name or value gives back the string |
| `FormUrlencoded.SerializeBytesAlphabet` | app.js:227 | the serializer emits only unreserved bytes, `+`, `%`, `=` and `&`. A non-empty list never starts with `&` |
| `FormUrlencoded.EncodeBytesAlphabet` | app.js:227 | percent-encoding a name or value emits only unreserved bytes, `+` and `%`, so never `=` or `&` |
| `FormUrlencoded.SerializeStoredVerbatim` | app.js:227 | any serialized list is printable ASCII with none of `" < > \`` and does not start with `#` |
| `Utf8.DecodeEncode` | app.js:233 | UTF-8 decoding with replacement inverts UTF-8 encoding on every string |
| `Utf8.AcceptedInRange` | app.js:233 | every sequence the decoder accepts in full decodes to a Unicode scalar value, never a surrogate or above U+10FFFF |
| `Utf8.EncodeAscii` | app.js:233 | UTF-8 encoding of an ASCII string is its bytes |
| `Html.EscapeHtml` | app.js:255-259 | the output contains no raw `<`, `>`, `"` or `'` and is at least as long as the input |
| `Html.Entity` | app.js:256-258 | each of `& < > " '` becomes its entity; every other character is left as it is |
| `Html.UnescapeEscape` | app.js:255-259 | un-escaping the five entities gives back the input |
| `Html.EscapeHtmlIdentity` | app.js:255-259 | escaping leaves a string unchanged exactly when it has none of the five characters |
| `Html.AmpersandsStartEntities` | app.js:255-259 | every `&` in the output begins one of the five entities |
| `Scenarios.ChooseSpeciesAtRoot` | app.js:138-153 | in the two-node Rosaceae key, answering "No" at `n1` keeps the trail at `n1` with "No" recorded, shows species `sp1` and writes a fragment with `sp` |
| `Scenarios.InheritedFamilyName` | app.js:238-248 | a permalink naming an inherited member such as `constructor`, together with `sp`, reports the key as missing or incomplete, leaves the engine cleared and still shows the species |
| `Scenarios.MissingFamily` | app.js:85-89 | loading a family absent from the data reports it and leaves the engine cleared |

## Left out

- `sw.js` is not part of this model. Its install, activate and fetch handlers manage the browser cache and network, and they keep no state the engine uses.
- `init` (`app.js:32-67`) fetches and parses the two JSON files and shows load errors. This is asynchronous I/O. The constructor instead takes the parsed keys and species, after `keys || {}` and the `Array.isArray` fallback.
- The family drop-down is sorted with `localeCompare(b, 'it')` (`app.js:49`). That is locale collation from the browser, so it is not modelled.
- DOM construction and event wiring are not modelled. This covers the node card and option buttons of `renderNode`, the species card of `showSpecies`, the breadcrumb buttons of `updateBreadcrumb`, `dom.select.value`, and the HTML of status messages. Only their effects on `current`, the status message kind, the species found and the fragment are kept.
- `clearFamilyView` is called but not defined in the source. It is taken to have no effect on `current`.
- `location.hash` is a value: methods return the fragment they assign, and `RestoreFromHash` takes the value read. `init` clears the status line right after `restoreFromHash` (`app.js:62`). The notices `RestoreFromHash` returns are those it writes before that.
- JSON values are modelled as strings and records. Ids, labels and roots are strings or absent. A family value that is falsy is an absent key, and a truthy value that is not an object (or an inherited member) is a key with neither `root` nor `nodes`, which is how the guards at `app.js:86` and `238` see them. Number ids, `null` labels and other JSON types are not modelled.
- `escapeHtml` applies `String(str)` to its input. The model takes a string, so this coercion of non-strings is not modelled.
- JavaScript strings are UTF-16. Dafny characters are Unicode scalar values, so a lone surrogate in a name or value is not representable; the browser would encode it as U+FFFD.
- App.Engine.RenderNode: requires a non-empty id, because every call site tests the id for truthiness first (`opt.next`, `!keyObj.root`, `node &&`, and trail steps, which are always named).
- App.Engine.LoadFamily: requires a non-empty name, because every call site passes a truthy one (`if(!fam)`, `fam &&`, and the current family).
- App.Engine.Backtrack: requires `idx < |trail|`. Breadcrumb buttons are rebuilt by `updateBreadcrumb` after every change to the trail except the one in `resetAll` (`app.js:69-74`), which first calls `clearFamilyView`. That function is not part of this model, so the requires holds only if it hides or empties the breadcrumb, as the un-hiding in `loadFamily` (`app.js:99`) suggests.

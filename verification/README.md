# Password manager: a Dafny model of the generator and the entry list

This project models the core of a small password manager. There are two parts.

- **The password generator** (`PasswordGenerator`). It derives a password from a site name and a
  phrase the user remembers. It works over a fixed, ordered alphabet of 95 characters: lowercase
  letters, uppercase letters, digits and 33 symbols. The backslash occurs twice, at positions 63 and
  86, and lookup (`find`) reports the first occurrence. The steps are:
  - Site and phrase are mixed into a seed. The shorter string is folded over the longer one by adding
    alphabet positions modulo 95.
  - The seed is scrambled by a level-order walk of its binary split.
  - The password is built one character at a time. Each character is the next material character,
    unless the four class counts (lowercase, uppercase, numbers, symbols) have drifted two apart. Then
    a random character of the smallest class is drawn. When the material is used up, every material
    character is shifted along the alphabet by half the distance between its first and last character
    (at least 1), and reading starts again from the front.
- **The entry list** (`PasswordManager`). It covers:
  - the (site, password) records
  - the existence check
  - add-or-replace
  - delete-first-match
  - the copy handed to callers
  - writing the list to the vault file and reading it back.

Modules, leaves first:

| file | module | models |
|---|---|---|
| `common.dfy` | `Common` | `Option`, `Result`, and the exceptions raised (`ValueError`, `IndexError`, `KeyError`) |
| `alphabet.dfy` | `Alphabet` | the alphabet, `find`, `is_valid_string`, `get_char_type`, `_get_random_character` |
| `seed_mixer.dfy` | `SeedMixer` | `get_combined_site_and_phrase_string` |
| `scrambler.dfy` | `Scrambler` | `scramble_phrase` |
| `deficit.dfy` | `Deficit` | `get_char_type_deficit` and the class-count balance |
| `index_sum.dfy` | `IndexSum` | `sum_phrase_indices_odd_or_even` |
| `password_builder.dfy` | `PasswordBuilder` | `make_password` |
| `manager.dfy` | `Manager` | `PasswordManager`: constructor, `_load_vault`, `_save_vault`, `password_exists`, `generate_password`, `delete_password`, `get_passwords`, `is_valid_string` |

Modelling choices:

- **Random draw.** `random.randint` is an oracle `roll: nat -> nat`. Iteration `i` draws
  `chars[roll(i) % |chars|]`, so every character of the class string can come out
  (`Alphabet.RandomCharacterReachesAll`). All contracts about `make_password` hold for every oracle.
- **Class counts.** The class-count dictionary `symbol_types` is the sequence of its four values, in
  key order. `get_char_type_deficit` returns the position of the deficit key, or None where the source
  returns `""`.
- **Entry records.** A record is `Entry(site, password)`. `site` is None when the record has no
  `"site"` key. Only a vault file written by something else holds such a record, but the source
  treats it explicitly. `password_exists` skips it. The update loops index `["site"]` unguarded and
  raise a KeyError on it; the model raises a KeyError there too.
- **Vault file.** The encrypted JSON file is reduced to what it holds:
  - no file
  - the list it last stored, with the master password its key is locked under
  - damaged data that decrypts under no master password.

  Opening a file locked under another master password raises ValueError, as the key
  derived from a different password fails to unlock it.

  `saves` counts the writes. Exceptions are values: an operation returns the manager after it
  together with either its return value or the exception raised. A KeyError in the replacement loop
  of `generate_password` leaves the records before it already replaced and unsaved, as in the source.
- **Exceptions.** Invalid arguments and a vault that does not decrypt both raise `ValueError`.
- **Balance.** The loop keeps every two class counts within 2 of each other
  (`_CHAR_TYPE_DEFICIT_NUMBER`). A class is forced only once the spread reaches 2, so an unforced
  step can take the spread from 1 to 2 (`Deficit.UnforcedStepReachesSpreadTwo`).

## Model

| member | source | states |
|---|---|---|
| Alphabet.Find | password_generator.py:26 | `find` of one character: -1 or a position holding it, and no earlier position holds it |
| Alphabet.FindMisses | password_generator.py:26 | `find` reports -1 exactly when the character does not occur |
| Alphabet.BackslashIsDuplicated | password_generator.py:12-13 | the backslash is at alphabet positions 63 and 86, lookup answers 63, and no character has index 86 |
| Alphabet.SymbolIndex | password_generator.py:12-13 | a symbol's index is 62 plus its first position in the symbol block |
| Alphabet.LowercaseIndex | password_generator.py:9-13 | a lowercase letter's index is its offset from 'a' |
| Alphabet.UppercaseIndex | password_generator.py:10-13 | an uppercase letter's index is 26 plus its offset from 'A' |
| Alphabet.IsValidString | password_generator.py:24-28 | true iff every character occurs in the alphabet; the empty string is valid |
| Alphabet.IsValidFrom | password_generator.py:25-28 | the scan from position i is true iff every later character is in the alphabet |
| Alphabet.ClassesDisjoint | password_generator.py:9-12 | the four class strings share no character |
| Alphabet.ClassifyByMembership | password_generator.py:114-121 | the `find`-based tests of `get_char_type` are membership tests, taken in priority order |
| Alphabet.ClassifyPartitionsAlphabet | password_generator.py:114-121 | a class is found iff the character is in the alphabet, and the class found is the one class whose string holds it |
| Alphabet.GetCharType | password_generator.py:111-121 | ValueError iff the argument is not one character; a class iff the character is in the alphabet; that class holds it, and no class earlier in priority order does |
| Alphabet.ClassOf | password_generator.py:114-121 | an alphabet character belongs to exactly one class |
| Alphabet.RandomCharacter | password_generator.py:17-19 | the drawn character belongs to the string drawn from |
| Alphabet.RandomCharacterReachesAll | password_generator.py:17-19 | every character of the string can be drawn by some value of the oracle |
| SeedMixer.GetCombinedSiteAndPhraseString | password_generator.py:33-50 | ValueError iff site or phrase is empty; otherwise the result is as long as the longer string (the site on a tie), lies in the alphabet, and holds at position i the alphabet character at (index(long[i]) + index(short[i mod len(short)])) mod 95 |
| SeedMixer.Fold | password_generator.py:45-50 | the mixing loop yields one mixed character per position of the longer string |
| SeedMixer.MixedCharSwaps | password_generator.py:47-49 | on strings of equal length the two roles can be exchanged |
| SeedMixer.MixingIsSymmetric | password_generator.py:39-49 | the seed does not depend on which argument is the site and which the phrase |
| SeedMixer.MixSingle | password_generator.py:46-49 | two one-character strings mix into their one mixed character |
| SeedMixer.MixingCollides | password_generator.py:12-13 | "O" and a backslash both mix with "x" into a backslash, so mixing is not one-to-one |
| Scrambler.PassWeight | password_generator.py:59-73 | one pass queues in-bounds ranges holding all positions of the old ranges except the midpoints |
| Scrambler.PassKeepsPositions | password_generator.py:60-72 | one pass emits the midpoint characters and queues the rest: emitted plus queued equals the old ranges, as multisets |
| Scrambler.ScrambleRangesKeepsPositions | password_generator.py:58-73 | the passes together emit every position of the queued ranges exactly once |
| Scrambler.ScramblePhrase | password_generator.py:53-74 | "" for ""; otherwise the output has the input's length and the same characters with the same multiplicities |
| Scrambler.EachPositionOnce | password_generator.py:56-74 | scrambling the positions 0..n-1 lists each of them exactly once |
| Scrambler.Pick | password_generator.py:58-73 | the position emitted at index k of the passes over a queue lies inside the string: the midpoint of range k within the first pass, else a position from the ranges that pass queued |
| Scrambler.ScrambleRangesAt | password_generator.py:58-73 | character k of the passes over a queue is the string's character at position Pick(rs, n, k) |
| Scrambler.ScramblePicks | password_generator.py:53-74 | output character k is the input character at the k-th scrambled position, so the scramble is a permutation of positions |
| Scrambler.ScrambleFive | password_generator.py:57-73 | a five-character phrase comes out in the order 2, 0, 3, 1, 4 |
| Scrambler.ScrambleABCDE | password_generator.py:53-74 | "ABCDE" scrambles to "CADBE" |
| Deficit.Scan | password_generator.py:85-91 | the strict-comparison scan finds the first smallest count and a largest count |
| Deficit.CharTypeDeficit | password_generator.py:78-95 | IndexError iff there are no counts; a class iff some count exceeds another by at least 2, and then the first class with the smallest count |
| Deficit.DeficitKeepsBalance | password_generator.py:92-95 | counting one more character of the deficit class (or of any class when there is none) keeps all counts within 2 of each other |
| Deficit.UnforcedStepReachesSpreadTwo | password_generator.py:78-95 | at counts [1,0,0,0] nothing is forced; a lowercase character then gives [2,0,0,0], which is still balanced and forces class 1 |
| Deficit.DeficitExamples | password_generator.py:78-95 | ties go to the earlier key: [1,0,0,2] forces class 1 and [0,5,5,5] class 0; [3,2,3,3] and [5,5,5,5] force nothing |
| IndexSum.SumPhraseIndicesOddOrEven | password_generator.py:100-108 | ValueError iff the phrase leaves the alphabet; otherwise the sum of the indices at positions of the length's parity, which is non-negative |
| IndexSum.SumMatchesReference | password_generator.py:103-108 | the forward loop from `len % 2` in steps of two equals the sum taken back from the second-to-last position |
| IndexSum.AlternateSumNonNegative | password_generator.py:105-106 | the sum of non-negative indices is non-negative |
| IndexSum.ValidPositions | password_generator.py:101-106 | inside the alphabet every `find` answer is non-negative |
| PasswordBuilder.CountsLast | password_generator.py:151 | the last character of a password is counted once, under its own class |
| PasswordBuilder.CountsAppend | password_generator.py:150-151 | appending an alphabet character bumps exactly its class's count |
| PasswordBuilder.CountsSumToLength | password_generator.py:134-151 | the four class counts of a password over the alphabet sum to its length |
| PasswordBuilder.RotationOffset | password_generator.py:154 | the rotation offset lies between 1 and 47 |
| PasswordBuilder.Moved | password_generator.py:157 | a character moved along the alphabet, wrapping modulo 95, stays in the alphabet |
| PasswordBuilder.Shift | password_generator.py:156-157 | moving every material character keeps the length and stays in the alphabet |
| PasswordBuilder.Rotate | password_generator.py:154-158 | the rotated material has the same length and stays in the alphabet |
| PasswordBuilder.RotationMergesIntoBackslash | password_generator.py:154-157 | moving by 24 turns both 'N' and '!' into a backslash, so rotation is not one-to-one |
| PasswordBuilder.Draw | password_generator.py:139-146 | a random character of a class is an alphabet character of that class |
| PasswordBuilder.NextChar | password_generator.py:139-149 | the inserted character is in the alphabet: a member of the deficit class when one is forced, else the material character at the cursor |
| PasswordBuilder.Advance | password_generator.py:148-158 | the cursor moves on only when a material character was taken; at the end of the material it returns to 0 and the material is rotated; the cursor stays inside the material |
| PasswordBuilder.InsertKeepsCounts | password_generator.py:150-151 | after an insertion the counts are those of the longer password and stay within 2 of each other |
| PasswordBuilder.StepKeepsBalance | password_generator.py:136-151 | counting the inserted character keeps the counts balanced |
| PasswordBuilder.InsertedCharType | password_generator.py:151 | `get_char_type` of an inserted character names its class, so the dictionary lookup cannot fail |
| PasswordBuilder.Step | password_generator.py:135-158 | one iteration keeps the loop invariant (password and material in the alphabet, counts exact and balanced, cursor inside the material), adds exactly the next character, and never makes the ignored `sum_phrase_indices_odd_or_even` call raise |
| PasswordBuilder.Loop | password_generator.py:135-158 | the loop keeps its invariant, extends the password it starts from, and ends at the requested length |
| PasswordBuilder.StartForcesNothing | password_generator.py:134-136 | with all counts at zero no class is forced |
| PasswordBuilder.FirstCharacterIsSeed | password_generator.py:131-149 | the first password character is the first scrambled seed character, whatever the random draws |
| PasswordBuilder.Material | password_generator.py:131 | the scrambled seed of a valid site and phrase is non-empty and in the alphabet |
| PasswordBuilder.MakePassword | password_generator.py:128-159 | ValueError iff the length is below 1 or the site or phrase is empty or leaves the alphabet; otherwise exactly `length` alphabet characters whose class counts sum to `length` and stay within 2 of each other |
| Manager.FirstKeyless | password_manager.py:87-89 | the first record without a "site" key: all earlier records have one |
| Manager.FirstStop | password_manager.py:98-101 | the first record that holds the site or has no "site" key: all earlier records have another site |
| Manager.PasswordExists | password_manager.py:72-76 | true iff some record has a "site" key holding the site |
| Manager.ReplaceAll | password_manager.py:86-89 | the length stays; each record of the site before the first keyless record is replaced, everything else is unchanged; KeyError iff some record has no "site" key |
| Manager.Store | password_manager.py:84-91 | an existing site: length kept, every record of the site before the first keyless record replaced in place, the rest untouched, KeyError iff some record has no "site" key; a new site: appended at the end, no failure; after a completed update the site exists and every record of it holds the new password |
| Manager.ReplacedSiteHoldsEntry | password_manager.py:86-89 | on a list without keyless records, replacing an existing site leaves it present and every record of it equal to the new record |
| Manager.DeleteFirst | password_manager.py:97-101 | equals the reference removal: the record where the scan stops is removed if it holds the site, a keyless record raises KeyError, and no stop leaves the list as it is |
| Manager.RemoveAtStopStep | password_manager.py:98-101 | past a record of another site the removal happens in the tail |
| Manager.Save | password_manager.py:59-69 | a file-backed manager writes its whole list and counts the write; one without a file changes nothing |
| Manager.Open | password_manager.py:29-56 | with a path and master password: ValueError iff the file is damaged or locked under another master password; a stored list is taken over; a missing file is created, locked under the master password and holding the empty list; otherwise an in-memory manager that never writes |
| Manager.GeneratePassword | password_manager.py:81-93 | None and nothing changed for a length below 1 or a missing or empty site or phrase; the exception of `make_password` with nothing changed; otherwise the store-and-save step; a returned password has the requested length, lies in the alphabet, and is the password of every record of the site; the saving flag and the master password never change |
| Manager.Commit | password_manager.py:84-93 | the list becomes the updated list; on success the password is returned, the site exists with every record of it holding the password, and the vault is written to match; the saving flag and the master password stay as they were; a KeyError leaves the vault and write count as they were |
| Manager.DeletePassword | password_manager.py:96-102 | an absent site changes nothing and writes nothing; a KeyError is raised exactly when the site exists and the deletion loop meets a record without a "site" key first, and it changes nothing; otherwise the first record of the site is removed and the list written; the saving flag and the master password never change |
| Manager.GetPasswords | password_manager.py:106-107 | the copy has the same records as the list; values are immutable, so changes to the copy cannot reach the manager |
| Manager.IsValidString | password_manager.py:110-111 | true iff every character is in the generator's alphabet |
| Manager.StoreReplacesInPlace | password_manager.py:86-89 | replacing an existing site keeps the length, puts the new record at every position of the site, and leaves all other records alone |
| Manager.DeleteUndoesStore | password_manager.py:90-101 | adding a new site and deleting it gives back the original list |
| Manager.StoreKeepsSitesUnique | password_manager.py:86-91 | a list whose sites are unique keeps them unique |
| Manager.DeleteKeyedRemovesFirst | password_manager.py:96-102 | when every record has a "site" key and the site exists, deletion succeeds and removes exactly the first record of the site, keeping the others in order |
| Manager.DeleteRemovesUniqueSite | password_manager.py:97-101 | with unique sites, deleting one removes its only record: the site is gone, one record fewer, sites still unique |
| Manager.RemovalDropsSite | password_manager.py:100 | with unique sites, removing a record leaves no record of its site |
| Manager.RemovalKeepsSitesUnique | password_manager.py:100 | removing a record keeps the remaining sites unique |
| Manager.GenerateKeepsSitesUnique | password_manager.py:81-93 | `generate_password` keeps unique sites unique and cannot raise KeyError on such a list |
| Manager.OperationsKeepVaultSynced | password_manager.py:92-102 | every operation that returns normally leaves the vault file holding the list |
| Manager.ReopenRestoresList | password_manager.py:29-50 | a manager reopened, with its own master password, on the file it wrote gets the same list back |
| Manager.ReopenRefusesOtherMaster | password_manager.py:36-46 | reopening the file a manager wrote with any other master password raises ValueError |
| Manager.GenerateThenDeleteRestores | password_manager.py:81-102 | generating a password for a new site and deleting that site leaves the list as it was, after two writes |
| Manager.DeleteAbsentChangesNothing | password_manager.py:96-102 | deleting an absent site changes nothing and writes nothing |
| Manager.GetPasswordsShowsGenerated | password_manager.py:93-107 | the copy handed out after a generation holds the new (site, password) record |

## Left out

- Cryptography: AES-GCM, PBKDF2 and random keys and salts (password_manager_crypto.py is not part of this model). A vault file records the master password its key is locked under; opening it with that password gives back its list, and opening it with any other password, or opening a damaged file, raises ValueError.
- File reading and writing, JSON and base64 in `_load_vault` and `_save_vault`: reduced to the `Vault` value and a write counter. Unreadable paths and malformed JSON are not modelled.
- The command-line interface and the runner (`password_manager_cli.py`, `password_manager_runner.py`): interactive I/O only.
- Class-level shared attributes of `PasswordManager`, such as the one `_passwords` list shared by all instances: each manager has its own state.
- Records that are not JSON objects, and records whose "site" is JSON null: a record has a string site or no "site" key.
- The value of `password_sum`: it is never used. The model only shows that the call cannot raise.
- The `None` branch of `_get_random_character` and `None` arguments to the generator: the generator always passes a class string, and the strings here are never None. `None` site and phrase arguments of `generate_password` are modelled.
- Alphabet.RandomCharacter: models which characters a draw can yield, not that `random.randint` is uniform.
- Manager.GetPasswords: the deep copy is the list itself, because values are immutable. Independence of the copy follows from value semantics rather than from a copy operation.

# Capitalisation steganography, modelled in Dafny

`toe_delusion.py` hides a short secret in a longer carrier text by
upper-casing carrier letters, and it reads the secret back from those letters:

- `embed_message(target_message, larger_message)` first normalises the secret.
  It removes the spaces and lower-cases what is left. It then copies the
  carrier into a list of characters and scans that list left to right with a
  cursor into the secret. At each position whose lower-case form equals the
  secret character under the cursor, it upper-cases that character, records the
  position and moves the cursor on. Once the secret is used up, the scan stops.
  If some of the secret is still unmatched after the scan, it raises
  `ValueError`. Otherwise it returns the rewritten text and the sum of the
  recorded positions.
- `extract_hidden_message(larger_message)` keeps the upper-case characters of
  its input, in order.

The project has two modules:

- `Ascii` (`ascii.dfy`) holds case classification and case mapping for ASCII
  characters. These are `IsUpper`, `IsLower`, `Lower` and `Upper`.
- `ToeDelusion` (`toe_delusion.dfy`) holds the rest of the model:
  - `EmbedMessage` is the imperative scan. It works on a `char` array copied
    from the carrier, with a target cursor and an `indices` sequence. Its loop
    has the same early `break` as the source. It is proved equal to the
    specification function `Embed`.
  - `Embed` is built from `Normalize`, the greedy scan `ScanFrom`/`MatchPositions`,
    `Capitalized` (the carrier with the recorded positions upper-cased) and `Sum`.
    `None` stands for the `ValueError`.
  - `ExtractHiddenMessage` is the filter, written as a recursive function.

The lemmas prove the following:

- The secret is normalised. Normalisation works character by character: it
  drops each space, lower-cases every other character and keeps their order.
  Case and spaces in the secret do not matter.
- On success, the output has the carrier's length. Only the recorded positions
  change, and each becomes the upper-case form of the carrier character there.
- The recorded positions increase. There is one for each secret character, and
  each matches its secret character case-insensitively.
- The scan is leftmost: no position in the search window matches the
  character being placed. The window starts just after the previous recorded
  position (or at the start of the carrier) and ends at the recorded position.
- The scan is complete. Embedding fails exactly when the normalised secret is
  not a subsequence of the lower-cased carrier.
- An empty normalised secret embeds to the carrier unchanged, with sum 0. A
  non-empty secret cannot be embedded in an empty carrier.
- Extraction works character by character: it distributes over concatenation.
  It never lengthens its input, and extracting twice is extracting once.
- Round trip: take a carrier with no upper-case characters and a secret whose
  normal form is all letters. If embedding succeeds, extraction returns the
  normalised secret in upper case.

Where the documentation and the code disagree, the model follows the code:

- The docstring of `embed_message` (toe_delusion.py:17-18) says it returns a
  string. The code returns a pair of the string and the index sum
  (toe_delusion.py:39). `Embedding` carries both.
- The docstring example (toe_delusion.py:9-11) embeds "dog" in "today is a
  good day". The greedy scan puts `d` at 2 and `o` at 12, and no `g` comes
  after 12, so the code raises `ValueError` for that input, and the docstring's
  result upper-cases only two letters anyway. The model follows the code, so
  `Embed` returns `None` there. `EmbedFailsIffNotEmbeddable` covers
  the general case.

## Model

| member | source | states |
|---|---|---|
| `Ascii.Lower` | toe_delusion.py:31 | the result is never upper-case; it is a lower-case letter exactly when the input is a letter; a character that is not upper-case is unchanged |
| `Ascii.Upper` | toe_delusion.py:32 | the result is never lower-case; it is an upper-case letter exactly when the input is a letter; a character that is not lower-case is unchanged |
| `Ascii.IsUpperCased` | toe_delusion.py:51 | `IsUpper`, the model of `ch.isupper()`, holds exactly when the character is cased (lower-casing changes it) and is its own upper-case form |
| `Ascii.CaseRoundTrip` | toe_delusion.py:31-32 | lower-casing ignores a prior upper-casing (and vice versa), and the two are inverse on letters |
| `ToeDelusion.RemoveSpaces` | toe_delusion.py:23 | the result contains no space and is no longer than the input |
| `ToeDelusion.LowerAll` | toe_delusion.py:23 | lower-casing keeps the length, leaves no upper-case character and changes each character only in case |
| `ToeDelusion.Normalize` | toe_delusion.py:23 | the normalised secret contains no space and no upper-case character, and is no longer than the secret |
| `ToeDelusion.NormalizeIgnoresCase` | toe_delusion.py:23 | two secrets that agree up to case have the same normal form |
| `ToeDelusion.NormalizeIgnoresSpace` | toe_delusion.py:23 | inserting a space anywhere in the secret leaves its normal form unchanged |
| `ToeDelusion.NormalizeFixed` | toe_delusion.py:23 | a secret with no space and no upper-case character is its own normal form |
| `ToeDelusion.NormalizeIdempotent` | toe_delusion.py:23 | normalising a normal form changes nothing |
| `ToeDelusion.NormalizeAppend` | toe_delusion.py:23 | the normal form of a concatenation is the concatenation of the normal forms |
| `ToeDelusion.NormalizeSingle` | toe_delusion.py:23 | a single space normalises to the empty string and any other character to its lower-case form; with `NormalizeAppend` this fixes the normal form of every secret |
| `ToeDelusion.EmbedDogVariants` | toe_delusion.py:23 | "DOG", "dog" and "d o g" give the same embedding result in every carrier |
| `ToeDelusion.ScanFrom` | toe_delusion.py:28-34 | the scan from position i with cursor k records at most one position per remaining secret character and per remaining carrier position |
| `ToeDelusion.ScanSound` | toe_delusion.py:28-34 | the recorded positions strictly increase, lie in the scanned part of the carrier, and the m-th holds a carrier character whose lower-case form is the m-th secret character still to be placed |
| `ToeDelusion.ScanStep` | toe_delusion.py:29-34 | one loop iteration: a match appends the current position to the recorded ones and advances the cursor, a mismatch only moves on, and the recorded prefix plus the rest of the scan stays the whole scan |
| `ToeDelusion.ScanLeftmost` | toe_delusion.py:28-34 | between where the search for each recorded position began (just after the previous one, or the start) and that position, no carrier character matches the secret character being placed |
| `ToeDelusion.ScanComplete` | toe_delusion.py:28-37 | if the remaining secret can be placed in order at any positions from i on, the greedy scan from i places all of it |
| `ToeDelusion.Sum` | toe_delusion.py:39 | the sum of the recorded positions is at least each of them |
| `ToeDelusion.SumAppend` | toe_delusion.py:33-39 | appending a recorded position adds it to the sum |
| `ToeDelusion.Embed` | toe_delusion.py:4-39 | a successful embedding has the carrier's length |
| `ToeDelusion.EmbedMessage` | toe_delusion.py:4-39 | the in-place scan over the copied buffer, with its early break, returns exactly `Embed`: failure when the secret was not used up, otherwise the rewritten buffer and the sum of the recorded positions |
| `ToeDelusion.EmbedFromPositions` | toe_delusion.py:36-39 | once the scan has stopped (carrier or secret used up), the result is failure if positions are missing and otherwise the capitalised carrier with the sum of the recorded positions |
| `ToeDelusion.EmbedSuccess` | toe_delusion.py:24-39 | on success: one increasing recorded position per normalised secret character, each matching it case-insensitively and upper-cased in the output; same length as the carrier; every other position keeps the carrier's character; the index sum is the sum of the positions |
| `ToeDelusion.EmbedFailsIffNotEmbeddable` | toe_delusion.py:28-37 | embedding fails exactly when no in-order case-insensitive placement of the normalised secret in the carrier exists |
| `ToeDelusion.EmbedEmptySecret` | toe_delusion.py:29-39 | an empty normalised secret returns the carrier unchanged with index sum 0 |
| `ToeDelusion.EmbedEmptyCarrier` | toe_delusion.py:36-37 | a non-empty normalised secret cannot be embedded in an empty carrier |
| `ToeDelusion.ExtractHiddenMessage` | toe_delusion.py:41-51 | the hidden message is no longer than the text and consists of upper-case characters only |
| `ToeDelusion.ExtractAppend` | toe_delusion.py:51 | extraction distributes over concatenation, so it keeps characters in their order |
| `ToeDelusion.ExtractSingle` | toe_delusion.py:51 | a single character is kept exactly when it is upper-case |
| `ToeDelusion.ExtractAllUpper` | toe_delusion.py:51 | a text made only of upper-case characters is returned unchanged |
| `ToeDelusion.ExtractNoUpper` | toe_delusion.py:51 | a text without upper-case characters yields the empty message |
| `ToeDelusion.ExtractIdempotent` | toe_delusion.py:51 | extracting from an extracted message changes nothing |
| `ToeDelusion.ExtractCapitalized` | toe_delusion.py:32-51 | upper-casing lower-case letters at increasing positions of a text with no upper-case characters, then extracting, yields those letters upper-cased, in order |
| `ToeDelusion.RoundTrip` | toe_delusion.py:23-51 | take a carrier without upper-case characters and a secret whose normal form is all letters; if embedding succeeds, extraction returns the normalised secret upper-cased |

## Left out

- The `__main__` block (toe_delusion.py:54-75) is not modelled. It fetches a web page with `requests`, strips HTML with BeautifulSoup and prints: that is I/O and foreign libraries. Callers of the model supply the carrier as a string.
- Python's Unicode case mapping is not modelled. `str.lower`, `str.upper` and `str.isupper` are modelled on ASCII only: `'A'`..`'Z'` and `'a'`..`'z'` change case, and every other character has no case and maps to itself. Non-ASCII letters (and mappings that change length, such as `'ß'.upper() == 'SS'`) are outside the model.
- The `ValueError` type and its message text are not modelled. Failure is `None`.
- `RoundTrip` requires a carrier with no upper-case characters and a secret whose normal form is all letters. Without these conditions the source gives no round trip. Upper-case characters already in the carrier show up in the extracted text. A secret character that has no case, such as a digit, is matched and recorded, but upper-casing leaves it unchanged, so extraction drops it.

# Soundex encoder model

A Dafny model of a small American-Soundex-style encoder written in C
(`Soundex.h`). The encoder turns a name into a 4-character code: the
uppercased first character followed by three digits `'0'`..`'6'`.

The C code has four parts:

- a 26-entry letter-to-class table and the classifier `getSoundexCode`;
- `appendSoundexCode`, which writes a code into a caller-owned buffer at a
  cursor and advances the cursor, unless the code is `'0'` or equals the
  buffer slot just before the cursor;
- `finalizeSoundex`, which pads the slots from the cursor up to slot 3 with
  `'0'` and writes NUL into slot 4;
- `generateSoundex`, which writes the uppercased first character into slot 0,
  then classifies and appends the following characters while fewer than four
  slots are filled, and pads at the end.

The model (`Soundex.dfy`, module `Soundex`) has two layers:

- **A pure reference.** `SoundexCode` is the classifier. `Encode(name)` is an
  independent description of the result. It takes the codes of the characters
  after the first and drops the silent `'0'`s (`NonZero`). It then collapses
  runs of equal codes (`Collapse`), starting from the uppercased first
  character, and keeps the first three digits padded with `'0'` (`Pad3`).
- **The buffer-writing code.** `AppendCode`, `Finalize` and `Generate` are
  methods over an `array<char>` with an integer cursor, written as the C code
  runs. `Generate` is proved to leave `Encode(name)` in slots 0..3 and NUL in
  slot 4.

Behaviour the model reproduces exactly as the C code has it:

- The duplicate check compares against the buffer slot before the cursor. For
  the first digit that slot holds the uppercased first *character*, not its
  class. A leading letter therefore never suppresses the next code, so
  "Pfister" gives `P123`, where classic NARA Soundex gives `P236`. A leading
  non-letter such as `'2'` can suppress a code `'2'`. Descriptions of the
  algorithm that say the first letter's class takes part in the duplicate
  check do not match the code; the model follows the code.
- Silent codes are never written, so a vowel, H, W or Y between two letters of
  the same class does not separate them: "Tymczak" gives `T520` and
  "Ashcraft" gives `A261`.
- An empty name is accepted. Slot 0 receives `toupper` of the terminator
  (NUL), and slots 1..3 receive `'0'`.

## Model

| member | source | states |
|---|---|---|
| `Soundex.SoundexCode` | Soundex.h:17-23 | the class of any character is a digit `'0'`..`'6'`, and it is `'0'` for every character that is not a letter after uppercasing |
| `Soundex.CodeMatchesGroups` | Soundex.h:9-13 | the table agrees with the Soundex letter groups: B F P V give 1; C G J K Q S X Z give 2; D T give 3; L gives 4; M N give 5; R gives 6; A E I O U H W Y and every non-letter give 0 |
| `Soundex.CodeIgnoresCase` | Soundex.h:18 | a character and its uppercase form get the same class, and uppercasing is idempotent |
| `Soundex.Encode` | Soundex.h:44-55 | the code always has 4 characters: slot 0 is the uppercased first character (NUL for an empty name), and slots 1..3 are digits `'0'`..`'6'` |
| `Soundex.DigitsRange` | Soundex.h:28-29 | every digit written by the append step is one of `'1'`..`'6'` (a `'0'` code is never written) |
| `Soundex.DigitsNoRepeats` | Soundex.h:28-29 | no two consecutively written digits are equal, and the first written digit differs from slot 0 |
| `Soundex.CollapseNoRepeats` | Soundex.h:28 | collapsing a sequence against a previous value leaves no two adjacent equal elements and no leading element equal to that previous value |
| `Soundex.CollapseSnoc` | Soundex.h:28-29 | one more input to the collapse is kept exactly when it differs from the value kept last |
| `Soundex.NonZeroAppend` | Soundex.h:28 | dropping silent codes distributes over concatenation |
| `Soundex.NonZeroMembers` | Soundex.h:28 | every code that survives the zero filter is a non-`'0'` code of the input |
| `Soundex.CollapseMembers` | Soundex.h:28 | every kept digit comes from the input codes |
| `Soundex.DigitsSnoc` | Soundex.h:49-51 | reading one more character adds its code exactly when the code is not `'0'` and differs from the slot before the cursor (the loop step of the generator) |
| `Soundex.DigitsPrefix` | Soundex.h:49-51 | reading more input only extends the kept digits and never changes those already kept, so their order follows the input |
| `Soundex.EncodeStopsAtThreeDigits` | Soundex.h:49 | once a prefix of the name has produced three digits, the rest of the name does not change the code |
| `Soundex.SilentCharIgnored` | Soundex.h:28 | inserting a character whose code is `'0'` anywhere after the first character does not change the kept digits, even between two equal codes |
| `Soundex.FirstLetterNeverSuppresses` | Soundex.h:28 | when the name starts with a letter, the first kept digit is always the first non-`'0'` code of the rest of the name |
| `Soundex.EncodeIgnoresCase` | Soundex.h:18 | uppercasing every character of the name first does not change the code |
| `Soundex.RobertCode` | Soundex.h:44-55 | "Robert" encodes as `R163` |
| `Soundex.RupertCode` | Soundex.h:44-55 | "Rupert" encodes as `R163` |
| `Soundex.LeeCode` | Soundex.h:35-40 | "Lee" encodes as `L000` (padding) |
| `Soundex.PfisterCode` | Soundex.h:28 | "Pfister" encodes as `P123`: the leading `P` does not suppress `f` |
| `Soundex.TymczakCode` | Soundex.h:28 | "Tymczak" encodes as `T520`: the vowel between `z` and `k` does not separate them |
| `Soundex.AshcraftCode` | Soundex.h:28-29 | "Ashcraft" encodes as `A261` |
| `Soundex.DigitFirstCode` | Soundex.h:28 | for "2s" the leading character `'2'` suppresses the code `'2'` of `s`, giving `2000` |
| `Soundex.AppendCode` | Soundex.h:27-31 | when the code is `'0'` or equals the slot before the cursor, buffer and cursor are unchanged; otherwise the code is written at the cursor, the cursor advances by exactly 1, and no other slot changes |
| `Soundex.Finalize` | Soundex.h:35-40 | slots from the cursor to 3 become `'0'`, slot 4 becomes NUL, and every other slot is unchanged (with a cursor at 4 or beyond, only slot 4 changes) |
| `Soundex.GenerateStep` | Soundex.h:49-51 | one pass of the loop body (classify the next character, then append) keeps the loop invariant: cursor in 1..4, slot 0 the uppercased first character, and the slots before the cursor equal to the digits kept from the characters read so far |
| `Soundex.GenerateLoopExit` | Soundex.h:49-54 | when the loop stops, because the name is used up or four slots are filled, the written slots padded with `'0'` to four are the reference code of the name |
| `Soundex.Generate` | Soundex.h:44-55 | the loop keeps the cursor in 1..4 and the written digits equal to the digits kept from the input read so far; afterwards slots 0..3 hold `Encode(name)`, slot 4 holds NUL, and slots past 4 are untouched |

## Left out

- The header guard and the file's include of itself: preprocessor
  boilerplate with no behaviour.
- `toupper` is modelled for the "C" locale only: ASCII `'a'`..`'z'` map to
  `'A'`..`'Z'` and every other character is unchanged. Other locales and
  negative `char` values (undefined behaviour for `toupper`) are not modelled.
- The name is a `seq<char>` holding the characters before the terminator, so
  `strlen` is its length. A NUL inside the name cannot be expressed in C and is
  not excluded by the model.
- The cursor that `appendSoundexCode` receives through an `int *` is passed in
  by value and returned as the new cursor. Pointer aliasing between the name
  and the buffer is not modelled.
- The caller's buffer size is implicit in C. `Finalize` and `Generate` require
  an array of at least 5 slots, and `AppendCode` requires the cursor to point
  inside the array.
- `Finalize` requires a non-negative cursor; with a negative one the C code
  writes before the buffer.

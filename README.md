# Snapshot reference-image file names

A model of the naming core of an iOS snapshot-testing library. This core is
the header `FBSnapshotTestCase/FBSnapshotTestCasePlatform.h`. A snapshot test
compares a rendered view against a stored reference image, and the header
declares how that image's file name is formed:

- **Option masks.** `FBSnapshotTestCaseAgnosticOption` and
  `FBSnapshotTestCaseFileNameIncludeOption` are two bit-flag vocabularies with
  the same layout: `None = 1 << 0`, `Device = 1 << 1`, `OS = 1 << 2`,
  `ScreenSize = 1 << 3`. `None` is a bit of its own, not the empty mask. The
  model (`Options.dfy`) wraps each vocabulary in its own datatype over a
  64-bit mask, so the two cannot be mixed up. It proves that every named flag
  is a single bit, that the flags share no bits, and that setting one flag
  leaves the tests for the others as they were.
- **Sanitization** (`Sanitizer.dfy`). Every whitespace or punctuation
  character is replaced with `_` and every other character is kept. Runs of
  such characters are not collapsed: the doc comments do not say that runs
  are collapsed, so the model replaces each character on its own. The character class is a parameter. The model also gives the
  "strip and replace" reading of the doc comments: split the name into
  components at those characters and join them with `_`. It proves this
  equals the per-character replacement.
- **Normalizers** (`Normalizer.dfy`). `FBDeviceAgnosticNormalizedFileNameFromOption`
  and `FBFileNameIncludeNormalizedFileNameFromOption` are two entry points over
  the two vocabularies. Both delegate to one helper that takes three booleans
  (device, OS, screen size). For each flag that is set, the helper appends `_`
  and that descriptor to the name, always in the order device, OS, screen
  size. It then sanitizes the whole string. The descriptors come from a
  device, OS and screen-size `Environment` record that the caller passes in.
- **Default suffixes** (`Suffixes.dfy`). `FBSnapshotTestCaseIs64Bit` reports
  whether the process is 64-bit; the model takes that answer as a boolean.
  `FBSnapshotTestCaseDefaultSuffixes` returns an `NSOrderedSet` of strings
  chosen by that flag. The model builds the ordered set by inserting
  candidate strings and ignoring duplicates. It proves that the result has no
  duplicates, holds exactly the candidates, and keeps their first-occurrence
  order.

The Agnostic vocabulary's doc comments say the name should be "agnostic" on a
dimension. The return description of its normalizer says that the
corresponding descriptor is appended. The model follows the return
description and the bit layout, so both vocabularies append the descriptors
of their set bits. `VocabulariesAgree` proves that the two normalizers give
the same name for the same bit pattern.

## Model

| member | source | states |
|---|---|---|
| `SnapshotOptions.NamedFlagsAreDistinctSingleBits` | FBSnapshotTestCase/FBSnapshotTestCasePlatform.h:26-31 | each of None, Device, OS, ScreenSize is exactly one bit, and two different named flags share no bit |
| `SnapshotOptions.NamedFlagTest` | FBSnapshotTestCase/FBSnapshotTestCasePlatform.h:26-31 | for a named flag, "all of its bits are in the mask" and "the mask shares a bit with it" coincide |
| `SnapshotOptions.SetFlagKeepsOthers` | FBSnapshotTestCase/FBSnapshotTestCasePlatform.h:26-46 | or-ing a named flag into a mask sets it and leaves whether any other named flag is set unchanged |
| `SnapshotOptions.AgnosticUnionSetsFlag` | FBSnapshotTestCase/FBSnapshotTestCasePlatform.h:26-31 | combining any agnostic option into a mask makes the mask test positive for it |
| `SnapshotOptions.AgnosticFlagsIndependent` | FBSnapshotTestCase/FBSnapshotTestCasePlatform.h:26-31 | combining one named agnostic option into a mask does not change the test for any other named agnostic option |
| `SnapshotOptions.IncludeUnionSetsFlag` | FBSnapshotTestCase/FBSnapshotTestCasePlatform.h:41-46 | combining any include option into a mask makes the mask test positive for it |
| `SnapshotOptions.IncludeFlagsIndependent` | FBSnapshotTestCase/FBSnapshotTestCasePlatform.h:41-46 | combining one named include option into a mask does not change the test for any other named include option |
| `FileNameSanitizer.Sanitize` | FBSnapshotTestCase/FBSnapshotTestCasePlatform.h:66 | same length; each whitespace/punctuation character becomes `_`, every other character is kept at its position; the result has no class character other than `_` |
| `FileNameSanitizer.SanitizeConcat` | FBSnapshotTestCase/FBSnapshotTestCasePlatform.h:66 | sanitizing a concatenation is concatenating the sanitized parts |
| `FileNameSanitizer.SanitizeFixedPoints` | FBSnapshotTestCase/FBSnapshotTestCasePlatform.h:75 | a string is left unchanged by sanitization if and only if its only whitespace/punctuation characters are `_` |
| `FileNameSanitizer.SanitizeIdempotent` | FBSnapshotTestCase/FBSnapshotTestCasePlatform.h:75 | sanitizing twice gives the same as sanitizing once |
| `FileNameSanitizer.SanitizeMyTest` | FBSnapshotTestCase/FBSnapshotTestCasePlatform.h:66 | "My Test" sanitizes to "My_Test" when space is in the class and its letters are not |
| `FileNameSanitizer.ReplaceClass` | FBSnapshotTestCase/FBSnapshotTestCasePlatform.h:66 | same length; each class character becomes the given separator and every other character is kept at its position |
| `FileNameSanitizer.StripAndJoinReplaces` | FBSnapshotTestCase/FBSnapshotTestCasePlatform.h:66 | for every separator character, joining the stripped components with it equals replacing each class character with it |
| `FileNameSanitizer.Components` | FBSnapshotTestCase/FBSnapshotTestCasePlatform.h:66 | stripping the class characters leaves one more component than there are such characters, and no component holds a stripped character |
| `FileNameSanitizer.StripAndJoinIsSanitize` | FBSnapshotTestCase/FBSnapshotTestCasePlatform.h:66 | stripping the whitespace/punctuation characters and joining the remaining components with `_` equals replacing each one with `_` |
| `FileNameNormalization.NormalizedFileName` | FBSnapshotTestCase/FBSnapshotTestCasePlatform.h:65-70 | the shared helper's result is sanitized and equals the sanitized base name followed by `_` plus the sanitized descriptor for exactly the true flags, in the order device, OS, screen size |
| `FileNameNormalization.DeviceAgnosticNormalizedFileName` | FBSnapshotTestCase/FBSnapshotTestCasePlatform.h:65-72 | the result has no whitespace/punctuation but `_`, begins with the sanitized base name, and then has `_` plus the sanitized device model, OS version and screen size exactly for the set bits, in that order |
| `FileNameNormalization.FileNameIncludeNormalizedFileName` | FBSnapshotTestCase/FBSnapshotTestCasePlatform.h:74-81 | the result has no whitespace/punctuation but `_`, begins with the sanitized base name, and then has `_` plus the sanitized device model, OS version and screen size exactly for the set bits, in that order |
| `FileNameNormalization.AgnosticWithoutDescriptorBits` | FBSnapshotTestCase/FBSnapshotTestCasePlatform.h:21-24 | an agnostic mask with none of the Device, OS, ScreenSize bits yields exactly the sanitized base name |
| `FileNameNormalization.IncludeWithoutDescriptorBits` | FBSnapshotTestCase/FBSnapshotTestCasePlatform.h:36-39 | an include mask with none of the Device, OS, ScreenSize bits yields exactly the sanitized base name |
| `FileNameNormalization.NoneOptionAppendsNothing` | FBSnapshotTestCase/FBSnapshotTestCasePlatform.h:21-36 | the `None` option of either vocabulary appends nothing to the sanitized base name |
| `FileNameNormalization.AllDescriptorsInFixedOrder` | FBSnapshotTestCase/FBSnapshotTestCasePlatform.h:79 | with all three descriptor bits set, the name is the sanitized base name, then the device model, OS version and screen size, each behind `_`, in that order |
| `FileNameNormalization.VocabulariesAgree` | FBSnapshotTestCase/FBSnapshotTestCasePlatform.h:26-46 | the agnostic and the include normalizer give the same name for the same bit pattern |
| `FileNameNormalization.AgnosticIdempotentWithoutDescriptorBits` | FBSnapshotTestCase/FBSnapshotTestCasePlatform.h:66-70 | without descriptor bits, normalizing a normalized name changes nothing, and a name already free of whitespace/punctuation but `_` is returned unchanged |
| `FileNameNormalization.IncludeIdempotentWithoutDescriptorBits` | FBSnapshotTestCase/FBSnapshotTestCasePlatform.h:75-79 | without descriptor bits, normalizing a normalized name changes nothing, and a name already free of whitespace/punctuation but `_` is returned unchanged |
| `FileNameNormalization.NormalizedTwiceAppendsAgain` | FBSnapshotTestCase/FBSnapshotTestCasePlatform.h:70 | with a descriptor flag true, normalizing a normalized name appends the same descriptors once more, so the result is strictly longer and extends the first |
| `FileNameNormalization.RenormalizingAppendsAgain` | FBSnapshotTestCase/FBSnapshotTestCasePlatform.h:79 | with a descriptor bit set, re-normalizing with the include normalizer appends the descriptors again |
| `FileNameNormalization.SpaceBecomesUnderscore` | FBSnapshotTestCase/FBSnapshotTestCasePlatform.h:66 | normalizing "My Test" with the agnostic `None` option gives "My_Test" |
| `FileNameNormalization.DeviceOnlyAppendsDeviceModel` | FBSnapshotTestCase/FBSnapshotTestCasePlatform.h:22 | with only the agnostic Device bit, the name is the sanitized base name, `_`, and the sanitized device model |
| `SnapshotSuffixes.OrderedSetOf` | FBSnapshotTestCase/FBSnapshotTestCasePlatform.h:61 | an ordered set built by insertion has no duplicates and holds exactly the inserted strings |
| `SnapshotSuffixes.OrderedSetOfKeepsFirstOccurrenceOrder` | FBSnapshotTestCase/FBSnapshotTestCasePlatform.h:61 | the ordered set lists its strings in the order of their first insertion |
| `SnapshotSuffixes.OrderedSetOfDistinct` | FBSnapshotTestCase/FBSnapshotTestCasePlatform.h:61 | inserting distinct strings yields them unchanged, in the same order |
| `SnapshotSuffixes.DefaultSuffixes` | FBSnapshotTestCase/FBSnapshotTestCasePlatform.h:49-63 | given whether the process is 64-bit, the default suffixes have no duplicates and are exactly the candidate strings of the running architecture |
| `SnapshotSuffixes.DefaultSuffixesKeepCandidateOrder` | FBSnapshotTestCase/FBSnapshotTestCasePlatform.h:57-63 | the default suffixes keep the candidates' order, and they equal the candidates when those are distinct |

## Left out

- UIKit environment reads: `UIDevice.currentDevice.model`, `systemVersion` and the key window's `bounds.size` are foreign calls. The model takes them as the strings of an `Environment` record passed to each normalizer.
- Screen-size formatting: the original formats it from floating-point `CGSize` bounds. The model takes it as an already formatted string.
- Which characters count as punctuation or space: the model does not fix the class. It is a parameter `invalid: char -> bool`. Every property above holds for every such class, and `_` maps to `_` whatever the class says.
- The separator before each appended descriptor is not stated in the header. The model uses `_`.
- NSUInteger is taken as 64 bits wide. On a 32-bit platform it is 32 bits, which makes no difference to the four flags, since all of them sit in the low four bits.
- SnapshotSuffixes.DefaultSuffixes: states only the shape of the result (no duplicates, the running architecture's candidates, their order). The concrete tags and which architecture gets which are defined in `FBSnapshotTestCasePlatform.m`, which is not part of this model, so the candidate strings are a parameter.
- `FBSnapshotTestCaseIs64Bit` (lines 48-55): whether the process runs 64-bit is an ambient fact of the build, so it has no function in the model. `DefaultSuffixes` takes the answer as the boolean `is64Bit`, so the suffixes depend on that flag alone by construction.
- The warning not to modify `FBSnapshotTestCaseDefaultSuffixes`, and the immutability of the returned set, are not behaviour. Values are immutable in the model anyway.
- Image capture, pixel comparison, reading and writing reference images, and the `FBSnapshotVerifyViewWithOptions` test macros: I/O and test-framework plumbing, not part of the header.

# kube-secret-decoder, modelled in Dafny

The program walks the `*.yaml` files of its working directory. For each one it
reads and parses a Kubernetes-style `Secret` (`apiVersion`, `kind`, `metadata`,
`data`). It skips the document unless `apiVersion` and `kind` are non-empty and
`data` is present. It then decodes every `data` value from padded standard
base64 (section 4 of RFC 4648) and gives the decoded text a type: an integer if
Go's `strconv.Atoi` accepts it, else a boolean if `strconv.ParseBool` does, else
the text itself. The first value that is not a string or not valid base64 drops
the whole document. Otherwise the document is written to `<name>_decoded.yaml`.

The model:

- `wrappers.dfy`, `bytes.dfy`: `Option`, and bytes as Go strings hold them.
- `base64.dfy` (module `Base64`): the decoder of Go's `base64.StdEncoding` as a
  pure function. Its partner is an encoder, and a lemma proves the round trip.
  Other lemmas cover the rejections: bad length, foreign characters, and
  padding away from the end.
- `strconv.dfy` (module `Strconv`): `Atoi` on a 64-bit platform and
  `ParseBool`, with `Itoa` and `FormatBool` as their inverses.
- `secrets.dfy` (module `Secrets`): the `Secret` record and the `Value` kinds
  of its maps, type inference, and the decode loop over `data`. The loop is a
  method that picks the next key arbitrarily, as Go's randomised map order
  does. It is proved against an order-free specification function,
  `DecodedData`.
- `paths.dfy` (module `Paths`): `filepath.Ext` and the output file name.
- `pipeline.dfy` (module `Pipeline`): one document (`Process`,
  `ProcessDocument`) and the loop over files (`Outputs`, `ProcessFiles`),
  with fail-fast and skip-and-continue lemmas.

Choices the source settles where its description leaves them open:

- `+` is accepted as a sign, because `strconv.Atoi` accepts it.
- The boolean literals are exactly `ParseBool`'s twelve.
- Decoded bytes that are not UTF-8 are kept byte for byte, because Go's
  `string(decoded)` converts nothing.
- The order of the keys is left arbitrary, not sorted.
- The decoder is Go's non-strict one: the unused low bits of a padded last
  quantum are ignored.
- Out of range and malformed integers are treated alike. Both make `Atoi`
  fail, so the text falls through to `ParseBool` and then stays a string.

## Model

| member | source | states |
|---|---|---|
| Base64.DecodeEncode | main.go:64 | decoding the padded standard encoding of any byte sequence returns that sequence |
| Base64.DecodeRejectsLength | main.go:64 | input whose length is not a multiple of four is rejected |
| Base64.DecodeRejectsForeign | main.go:64 | input with a character outside the alphabet that is not `=` is rejected |
| Base64.DecodePadOnlyAtEnd | main.go:64 | an accepted input holds `=` only in its last two positions |
| Base64.DecodeLength | main.go:64 | an accepted input is exactly as long as the padded encoding of what it decodes to |
| Base64.LenientTrailingBits | main.go:64 | "QR==" and "QQ==" both decode to "A"; "QQ=" and "Q===" are rejected |
| Strconv.Atoi | main.go:74 | an accepted text is an optional sign then at least one digit, its value is in the signed 64-bit range, and only a text starting with `-` gives a negative number |
| Strconv.AtoiItoa | main.go:74 | every 64-bit integer is parsed back from its decimal text |
| Strconv.AtoiLeadingZeros | main.go:74 | leading zeros after an optional `+` or `-` do not change the value ("007" is 7, "-007" is -7) |
| Strconv.AtoiSigned | main.go:74 | an optional sign followed by digits parses to the signed value of the digits exactly when that value lies in the signed 64-bit range, and fails otherwise |
| Strconv.AtoiRejectsOverflow | main.go:74 | a run of digits, with or without a sign, whose signed value lies outside the 64-bit range is not an integer |
| Strconv.ParseBool | main.go:76 | true exactly for `1 t T TRUE true True`, false exactly for `0 f F FALSE false False`, and a failure for anything else |
| Strconv.ParseBoolFormatBool | main.go:76 | `true` and `false` parse back to their booleans |
| Secrets.Infer | main.go:71-80 | the result is an integer exactly when `Atoi` accepts the text, and then it is `Atoi`'s value; a boolean exactly when `Atoi` fails and `ParseBool` accepts it, and then it is `ParseBool`'s value; otherwise the text itself as a string |
| Secrets.InferFormat | main.go:71-80 | every 64-bit integer, every boolean and every string that neither parser accepts is inferred back from its own text |
| Secrets.InferBoolLiterals | main.go:74-77 | "1" and "0" become integers, never booleans; the other ten boolean literals become their booleans |
| Secrets.InferIntegerExamples | main.go:74-75 | "42", "-7" and "007" become the integers 42, -7 and 7 |
| Secrets.InferBooleanExamples | main.go:76-77 | "true" and "false" become booleans |
| Secrets.InferStringExamples | main.go:78-79 | "hello world" and the empty text stay strings, unchanged |
| Secrets.DecodeEntryEncode | main.go:57-80 | an entry holding the base64 encoding of a typed value's text (an in-range integer, a boolean, or a string neither parser accepts) decodes back to that value |
| Secrets.DecodedData | main.go:55-81 | the data decodes exactly when every value is a valid base64 string; the keys are then unchanged and each value is the typed inference of its own decoded bytes |
| Secrets.DecodeData | main.go:55-81 | for any key order, `valid` is cleared exactly when some entry is not a string or not valid base64; on success the map is the decoded data; either way the keys are the same and each entry is its old value or its decoded value |
| Paths.ExtStart | main.go:97 | the extension starts at the last dot of the last path element, or at the end when that element has no dot |
| Paths.OutputName | main.go:97 | the output name is the input without its extension, then `_decoded.yaml`, and is never the input's name |
| Paths.OutputNameOfYaml | main.go:97 | `<stem>.yaml` becomes `<stem>_decoded.yaml`, eight characters longer |
| Pipeline.Process | main.go:48-97 | the document is written exactly when its structure is valid and every entry decodes, and the written document is the input with each `data` value replaced by the inferred value of its decoded bytes; it is skipped for its structure exactly when `apiVersion` or `kind` is empty or `data` is nil, and for its data exactly when some entry fails to decode; a written document keeps `apiVersion`, `kind`, `metadata` and the data keys, holds only typed values, and goes to the output name |
| Pipeline.ProcessDocument | main.go:48-97 | processing one parsed document gives the outcome `Process` specifies |
| Pipeline.EmptyDataAccepted | main.go:49 | a present but empty `data` map passes and the document is written as it is |
| Pipeline.NoPartialOutput | main.go:55-87 | one entry that fails to decode leaves the document with no output at all |
| Pipeline.Outputs | main.go:30-107 | no more files are written than were found |
| Pipeline.OutputsAppend | main.go:30-107 | for inputs parsed before the loop, the outputs of two runs of files concatenate |
| Pipeline.SkipAndContinue | main.go:30-107 | a skipped file takes nothing away from the outputs of the files before and after it |
| Pipeline.OutputsExactly | main.go:30-107 | a file is written exactly when it is processed successfully |
| Pipeline.ProcessFiles | main.go:30-107 | the file loop writes exactly the outputs `Outputs` specifies, in input order |

## Left out

- Listing, reading and writing files (`filepath.Glob`, `os.ReadFile`, `os.WriteFile` and the 0644 mode) are file-system I/O. A file that cannot be read is an `Input` whose parsed document is `None`.
- `yaml.Unmarshal` and `yaml.Marshal` belong to a foreign library. The model starts from a parsed `Secret`. A parse failure is the same `None`. A marshal or write failure, which skips only that file, is not modelled: `ProcessFiles` returns the files handed to the writer.
- The progress and diagnostic lines (`fmt.Printf`) and the fatal exit when listing fails (`log.Fatalf`) are console output only. The model keeps the reason a file was skipped, but not the key or the error text.
- Pipeline.Process: which key is reported when a document fails depends on Go's random map order, so it is not specified. The model keeps the `data` map as it stands at the failure (visited entries decoded, the rest unchanged). The document is dropped, so nothing observes it.
- Secrets.DecodeData: Go overwrites the entries of the `data` map inside the parsed `Secret` in place. The model returns the updated map, and `ProcessDocument` puts it back into the record. Nothing else refers to that map, so no aliasing is lost.
- Base64.Decode: Go's decoder also skips `\r` and `\n` anywhere in the input. This model rejects them like any other foreign character. The offset in Go's `CorruptInputError` is not modelled.
- Strconv.Atoi: the syntax and range errors are one failure here, since the program only tests whether the error is nil. `int` is fixed at 64 bits; a 32-bit platform is not modelled.
- File names are Dafny strings of characters, not Go byte strings. On a Unix-like system `filepath.Ext` only looks at the ASCII bytes `/` and `.`, so nothing is lost there. The model assumes `/` is the only separator; on Windows `\` is one too, which changes nothing for names that end in `.yaml`.
- Pipeline.OutputsAppend: the model takes every input as parsed before the loop starts, so files are independent of each other. In Go each file is read only when the loop reaches it, after the outputs of the earlier files are written, and `filepath.Glob` returns the names sorted. An output written earlier in the same run can therefore be read back as an input later: with `a.yaml` and an old `a_decoded.yaml` both present, `a.yaml` comes first, overwrites `a_decoded.yaml`, and the loop then reads the new content. The model does not capture that interleaving.

# kubernetes-secret-generator: the `.env` parser and the Secret envelope

This project is a Dafny model of the one piece of logic in the web tool
`kubernetes-secret-generator`. The function `parse_env` (app.py) reads the
text of a `.env` file. It builds the dictionary that becomes the `data` of a
Kubernetes Secret, mapping each key to the base64 of the UTF-8 bytes of its
value. The handlers wrap that dictionary in a fixed `Secret` envelope.

`parse_env` works line by line:

- the line is stripped of whitespace;
- a blank line, or one starting with `#`, is ignored;
- the line is split at its first `=`; only when it has no `=` is it split at
  its first `:`; a line with neither is skipped without any error;
- the key is stripped of whitespace; the value is stripped of whitespace and
  then of every `"` at either end;
- `base64.b64encode(value.encode()).decode()` is stored under the key; a
  later line for the same key replaces the value and the key keeps its first
  position.

Modules, one per concept:

| file | module | models |
|---|---|---|
| `text.dfy` | `Text` | `str.strip()`, `str.strip(chars)` and `str.splitlines()` |
| `bytes.dfy` | `Bytes` | octets |
| `utf8.dfy` | `Utf8` | `str.encode()` (RFC 3629, section 3) and the strict decoder |
| `base64.dfy` | `Base64` | `base64.b64encode` (RFC 4648, section 4) and the strict decoder |
| `dicts.dfy` | `Dicts` | a Python `dict`: a map plus the insertion order of its keys |
| `env_parser.dfy` | `EnvParser` | `parse_env`: one line (`Classify`), the fold over the lines, the loop (`ParseEnv`) |
| `manifest.dfy` | `Manifest` | the `secret_json` envelope |
| `wrappers.dfy` | `Wrappers` | `Option`, the decoders' failure case |

`EnvParser.ParseEnv` is the loop of `parse_env` written as a method. Its
postcondition ties its result to the specification function `EnvFile`,
which classifies every line (`ClassifyAll`) and folds the results into a
dictionary (`Collect`). The whole-file lemmas (`KeySet`, `LastWins`,
`KeyOrder`, `StoredValues`, `DictionaryDecodes`) are stated over the
classified lines `ls`. For a text `t`, `ls` is `ClassifyAll(SplitLines(t))`,
so `Defines(ls, n, k)` reads "line n of t is accepted and has key k".

What app.py does not do is part of its behaviour, and the model keeps it
that way:
- it reports no diagnostics;
- it does not check key names, and it accepts the empty key;
- it gives single quotes no special meaning;
- it removes no inline comments, so a `#` inside a value stays there.

One consequence of the code's precedence rule: a line such as
`URL: http://h/?a=b` holds an `=`, so it is split there, giving the key
`URL: http://h/?a` and the value `b` (`EnvParser.AssignmentLine` allows `:`
in the key part).

Whitespace and line breaks are the exact character sets Python uses:
`Text.Whitespace` is the set of characters for which `str.isspace()` holds,
and `Text.IsLineBreak` holds for the boundaries of `str.splitlines()`, with
`"\r\n"` as one boundary.

## Model

| member | source | states |
|---|---|---|
| `Text.SplitLines` | app.py:13 | `str.splitlines()`; its properties are stated by `SplitLinesAreLines`, `SplitFirstLine`, `SplitLastLine` and `SplitJoinLines` |
| `Text.SplitLinesAreLines` | app.py:13 | every line `splitlines()` returns is free of line breaks, and there are no more lines than characters |
| `Text.SplitFirstLine` | app.py:13 | a break-free line followed by a terminator comes out as the first line, the rest of the text giving the other lines, unless a lone `\r` is followed by `\n` |
| `Text.SplitLastLine` | app.py:13 | a non-empty text without a line break is one line, returned as it is: a final line with no break after it is kept |
| `Text.SplitJoinLines` | app.py:13 | splitting lines that were joined with any one terminator (`\n`, `\r\n`, …) gives back exactly those lines, with no extra empty line after the last terminator |
| `Text.LStrip` | app.py:14 | the result is a suffix of the input whose first character is not one that is dropped |
| `Text.LStripDrops` | app.py:14 | every character `lstrip` removes is in the dropped set |
| `Text.RStrip` | app.py:14 | the result is a prefix of the input whose last character is not one that is dropped |
| `Text.RStripDrops` | app.py:14 | every character `rstrip` removes is in the dropped set |
| `Text.Strip` | app.py:14 | the result neither starts nor ends with a dropped character |
| `Text.StripIsBlock` | app.py:14 | the stripped text is a contiguous block of the input with only dropped characters before and after it |
| `Text.StripUnique` | app.py:26 | whatever sits between two runs of dropped characters and has none at its own ends is exactly what strip returns |
| `Text.StripEmpty` | app.py:15 | stripping leaves nothing exactly when every character is in the dropped set; app.py:15 uses it with `Whitespace` |
| `Text.StripStart` | app.py:15 | the stripped text starts with the first character that is not dropped |
| `Text.StripKeeps` | app.py:19-21 | a character that is not dropped occurs in the stripped text exactly when it occurs in the input |
| `Utf8.EncodeChar` | app.py:27 | one character takes 1 to 4 bytes, and exactly one byte when it is ASCII |
| `Utf8.Encode` | app.py:27 | a string of n characters takes between n and 4n bytes |
| `Utf8.DecodeEncodeChar` | app.py:27 | the decoder reads the encoding of one character back as that character and its length, whatever follows |
| `Utf8.EncodeDecodeFirst` | app.py:27 | whatever character the decoder reads first is encoded by exactly the bytes it consumed |
| `Utf8.DecodeEncode` | app.py:27 | strict UTF-8 decoding of `value.encode()` gives back exactly the value |
| `Utf8.EncodeDecode` | app.py:27 | every byte sequence the strict decoder accepts is the encoding of what it returns: UTF-8 forms are unique |
| `Base64.Encode` | app.py:27 | `base64.b64encode`; its properties are stated by `EncodeLength`, `EncodeAlphabet`, `DecodeEncode` and `EncodeDecode` |
| `Base64.EncodeLength` | app.py:27 | the encoding of n bytes has 4·⌈n/3⌉ characters |
| `Base64.EncodeAlphabet` | app.py:27 | the encoding uses only `A-Z`, `a-z`, `0-9`, `+`, `/` and the pad `=` |
| `Base64.DecodeEncode` | app.py:27 | decoding what `b64encode` produced gives back exactly the bytes |
| `Base64.EncodeDecode` | app.py:27 | every text the strict decoder accepts is the encoding of what it returns: the encoder is a bijection onto canonical base64 |
| `Base64.ValueOfDigit` | app.py:27 | reading back the alphabet character of a 6-bit value gives the value |
| `Base64.DigitOfValue` | app.py:27 | every alphabet character is the character of the value it is read as |
| `Base64.ScanRender` | app.py:27 | reading back the text of a symbol sequence gives the symbols |
| `Base64.RenderScan` | app.py:27 | any text that reads as symbols is the text of those symbols |
| `Base64.JoinSymbols` | app.py:27 | regrouping the 6-bit symbols of the bytes into octets, pads included, gives back the bytes |
| `Base64.SymbolsJoin` | app.py:27 | any well-formed symbol sequence is the symbol sequence of the octets it decodes to |
| `Dicts.Empty` | app.py:12 | the empty dictionary has no keys |
| `Dicts.Dict.Put` | app.py:27 | `d[k] = v` maps k to v and keeps every other entry; an existing key keeps its position, a new key is appended; keys stay distinct |
| `EnvParser.Classify` | app.py:14-26 | what one line contributes; its cases are stated by `IgnoredLines`, `UnseparatedLines`, `AssignmentLine` and `ColonLine` |
| `EnvParser.CleanValue` | app.py:26 | `value.strip().strip('"')`; characterized by `CleanValueOf` |
| `EnvParser.EncodeValue` | app.py:27 | `base64.b64encode(value.encode()).decode()`; its properties are stated by `StoredValueDecodes`, `StoredValueCanonical` and `StoredValueShape` |
| `EnvParser.EnvFile` | app.py:10-28 | `parse_env` of a text: the fold of its classified lines; `ParseEnv` is proved to compute it, and `KeySet`, `LastWins` and `KeyOrder` state its contents |
| `EnvParser.SplitOnce` | app.py:20-22 | `line.split(sep, 1)`: the line is the key part, the separator and the rest, and the key part holds no separator |
| `EnvParser.SplitOnceUnique` | app.py:20-22 | the split is at the first occurrence of the separator, whatever follows it |
| `EnvParser.IgnoredLines` | app.py:14-16 | a line is ignored exactly when it is blank or its first non-blank character is `#` |
| `EnvParser.UnseparatedLines` | app.py:19-24 | a line is skipped for lack of separator exactly when it is neither blank nor a comment and holds neither `=` nor `:` |
| `EnvParser.AssignmentLine` | app.py:19-20 | a line `a=b` whose `a` holds no `=` gives key `strip(a)` and value `clean(b)`, even when `a` holds `:` or is empty and `b` holds more `=` |
| `EnvParser.ColonLine` | app.py:21-22 | a line `a:b` holding no `=` gives key `strip(a)` and value `clean(b)`, later `:` staying in the value |
| `EnvParser.CleanValueOf` | app.py:26 | the value loses surrounding whitespace and then every `"` at either end, and nothing else: blanks inside the quotes, `'` and `#` are kept |
| `EnvParser.EntryFields` | app.py:26 | an accepted key is whitespace-trimmed and holds no `=`; an accepted value neither starts nor ends with `"` |
| `EnvParser.CommentWhen` | app.py:15 | for a non-blank line, the stripped line starts with `#` exactly when its first non-blank character is `#` |
| `EnvParser.ColonEntryFields` | app.py:21-22 | a line accepted without `=` holds a `:`, its key holds no `:` and its value no `=` |
| `EnvParser.StoredValueDecodes` | app.py:27 | a stored value decodes (base64, then UTF-8) to exactly the cleaned value |
| `EnvParser.StoredValueCanonical` | app.py:27 | every text that decodes is the stored form of the value it decodes to |
| `EnvParser.StoredValueShape` | app.py:27 | a stored value has 4·⌈n/3⌉ characters of the base64 alphabet and `=`, for n UTF-8 bytes of the value |
| `EnvParser.Insert` | app.py:27 | one line keeps the dictionary well formed |
| `EnvParser.Collect` | app.py:12-27 | folding the lines yields a well-formed dictionary |
| `EnvParser.ParseEnv` | app.py:10-28 | the loop returns a well-formed dictionary equal to the fold of the classified lines of the text |
| `EnvParser.KeySet` | app.py:12-27 | a key is in the result exactly when some accepted line has that key |
| `EnvParser.LastWins` | app.py:27 | the value under a key is the encoding of the value of the last line defining it |
| `EnvParser.StoredValues` | app.py:27 | every stored value is the encoding of the cleaned value of some line defining its key |
| `EnvParser.DictionaryDecodes` | app.py:27 | every stored value decodes to the cleaned value of some line defining its key |
| `EnvParser.KeyOrder` | app.py:12-27 | of any two keys, the one listed first was defined by an earlier line than any line defining the other |
| `Manifest.DataOfLines` | app.py:12-27 | the folded dictionary holds exactly the keys of the accepted lines, in the order of their first definition; the value under a key is the encoding of the value of the last line defining it, and decodes to the cleaned value of a line defining it |
| `Manifest.SecretOf` | app.py:43-52 | the envelope is kind `Secret`, apiVersion `v1`, type `Opaque`, with the given name and namespace; its data is exactly `parse_env` of the text (`EnvFile`): the keys of the accepted lines in the order of their first definition, each holding the encoding of the value of the last line defining it, which decodes back to that cleaned value |

## Left out

- The Flask routes `index` and `download`, `request.form` and its default
  values, `render_template`, `BytesIO` and `send_file` (app.py:30-83): HTTP and
  I/O glue. The envelope both routes build is `Manifest.SecretOf`.
- `secure_filename` (app.py:63, 82): a werkzeug function whose code is not
  part of this model.
- `json.dumps` with `indent=4` (app.py:54, 78): library serialisation. The
  field order of `Manifest.Secret` and the key order of `Dicts.Dict` are what
  it would write out.
- `app.run` (app.py:85-86): server start-up.
- UTF-8 encoding errors: a Dafny `char` is a Unicode scalar value, so strings
  with lone surrogates, the only input on which `str.encode()` fails, cannot
  be expressed.
- Concrete sample lines such as `A:b=c` are not proved one by one; the
  general lemmas `EnvParser.AssignmentLine` and `EnvParser.ColonLine` cover
  them.

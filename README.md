# notify_whatsapp in Dafny

This is a model of the decision-making core of `notify_whatsapp`. The script is run by Tautulli whenever new media is added to a Plex library. It takes the media's metadata from its command line and fills one of four message templates with it. It then asks a `go-whatsapp-web-multidevice` server to post the poster image with that caption. A companion helper, `generate_basic_auth`, builds the `Authorization` header value the server may require.

The model has six modules:

- `Wrappers`: `Option`, `Result` and the `Byte` type.
- `Utf8`: a UTF-8 encoder and a strict decoder, following section 3 of RFC 3629. The encoder refuses lone surrogates, as Python's `str.encode('utf-8')` does.
- `Base64`: the base 64 encoder of section 4 of RFC 4648, with the standard alphabet and `=` padding, plus a strict decoder that serves as its inverse.
- `Auth`: `generate_basic_auth` and the shape of the header it returns, following section 2 of RFC 7617.
- `Arguments`: the table of 27 command-line options and the `ArgumentParser` that `build_arguments` fills, one `add_argument` call per row. It also gives the namespace that results when no option is given.
- `Templates`: the four message templates and the part of `str.format_map` they use. A template is a sequence of literal text and `{name}` fields. The lookup behaves like `defaultdict(str, ...)`, so a missing attribute reads as `''`.
- `Notify`: the rest of the main block and `send_webhook`:
  - the poster gate, then the media-type gate;
  - the caption;
  - the image address, which always has `.png` appended;
  - the request description: the URL, the `Authorization` header only when `-auth` is given, and the four multipart fields.

Decisions the model makes explicit:

- **Credentials.** Login and password are sequences of code points. A lone surrogate can occur in a Python string, and in that case `encode('utf-8')` raises. `GenerateBasicAuth` therefore returns a `Result`, and its failure reports the position of the first surrogate.
- **Values.** A namespace value is either a string or a flag (`Value`). It is formatted as Python's `str()` formats it: `True`/`False` for flags.
- **The media-type test.** `media_type in TEMPLATES` is modelled as "a string that is one of the four keys".
- **The `.png` suffix.** The poster address gets `.png` appended without any condition, as `notify_whatsapp.py:131` does. This holds even when the address already ends in an image extension, so `p.png` becomes `p.png.png`. The docstring of `send_webhook` (notify_whatsapp.py:92) calls this suffix a fake extension parameter.
- **Template fields.** The fields a template can name form a closed enumeration (`FieldName`). Each one is the name of an attribute of the parsed namespace (`FieldKeysBound`).

## Model

| member | source | states |
|---|---|---|
| Auth.GenerateBasicAuth | auth.py:3-7 | Fails exactly when login or password holds a lone surrogate, and the failure position lies within the credentials. On success the value starts with `Basic `, and the rest decodes as base 64 and then as UTF-8 back to exactly login, one colon, password. |
| Auth.Credentials | auth.py:5 | The credentials string is the login, one colon and the password, in that order and nothing else. |
| Auth.GenerateBasicAuthSucceeds | auth.py:5-6 | Without surrogates, the UTF-8 encoding of `login:senha` succeeds, and so does the whole function. |
| Auth.HeaderValue | auth.py:6-7 | The header is `Basic ` followed by the base 64 text of the UTF-8 octets of the credentials. |
| Auth.HeaderLength | auth.py:6-7 | For n octets the header is 6 + 4·⌈n/3⌉ characters long, and its encoded part is a multiple of four long. |
| Auth.HeaderAlphabet | auth.py:6-7 | After the prefix come only characters of the base 64 alphabet, then 0, 2 or 1 `=` when n mod 3 is 0, 1 or 2. |
| Auth.PrefixedShape | auth.py:7 | `Basic ` followed by the base 64 text of any octets has the alphabet-then-padding shape of `HeaderAlphabet`. |
| Auth.AsciiOctets | auth.py:5-6 | For ASCII credentials, the octets are the characters themselves: one per character plus the colon. |
| Auth.EmptyCredentials | auth.py:3-7 | An empty login and an empty password give `Basic Og==`. |
| Auth.SplitAtColon | auth.py:5 | Splits at the first colon. Rejoining the parts gives the input back, the first part holds no colon, and the result is absent exactly when there is no colon. |
| Auth.SplitCredentials | auth.py:5 | A login without a colon and any password are recovered by splitting at the first colon. |
| Auth.ColonInLogin | auth.py:5 | `a:b`/`c` and `a`/`b:c` yield the same header, which splits as the second pair. |
| Base64.Char | auth.py:6 | Every sextet maps to a character of the base 64 alphabet. |
| Base64.Value | auth.py:6 | Only alphabet characters have a value, and the value maps back to the character. |
| Base64.ValueOfChar | auth.py:6 | Taking a sextet's character and then its value gives the sextet back. |
| Base64.Encode | auth.py:6 | Non-empty input gives at least one group of four characters. |
| Base64.EncodeLength | auth.py:6 | The output has 4·⌈n/3⌉ characters for n octets. |
| Base64.EncodeLengthMultiple | auth.py:6 | The output length is a multiple of four. |
| Base64.EncodeShape | auth.py:6 | The output is alphabet characters followed by 0, 2 or 1 `=` as n mod 3 is 0, 1 or 2. |
| Base64.DecodeQuanta | auth.py:6 | Whatever decodes, decodes to octets. |
| Base64.DecodeEncode | auth.py:6 | Decoding the encoding of any octets gives them back. |
| Base64.EncodeDecode | auth.py:6 | Every text that decodes is the encoding of what it decodes to. |
| Utf8.EncodeScalar | auth.py:6 | A scalar value takes `Width` octets, the first of them ASCII exactly for ASCII code points, and the others continuation octets. |
| Utf8.Encode | auth.py:6 | Succeeds exactly when no code point is a surrogate. A failure names the position of the first surrogate. |
| Utf8.DecodeFirst | auth.py:6 | A decoded prefix is one to four octets long and never a surrogate. |
| Utf8.EncodeAscii | auth.py:6 | ASCII text encodes to itself. |
| Utf8.DecodeFirstOfEncodeScalar | auth.py:6 | The first code point decoded from an encoded scalar is that scalar, with its width. |
| Utf8.EncodeScalarOfDecodeFirst | auth.py:6 | Re-encoding a decoded code point gives the octets it was decoded from. |
| Utf8.DecodeEncode | auth.py:6 | Decoding the UTF-8 encoding of surrogate-free text gives the text back. |
| Utf8.EncodeDecode | auth.py:6 | Every octet sequence that decodes is the encoding of its decoding. |
| Arguments.ArgumentParser.constructor | notify_whatsapp.py:51 | A new parser holds no actions. |
| Arguments.ArgumentParser.AddArgument | notify_whatsapp.py:85-87 | The parser's action list grows by exactly one record. That record holds the two option strings, the destination argparse derives from them, the help text, the default and the action. |
| Arguments.Dest | notify_whatsapp.py:85-87 | The destination argparse derives from two option strings never contains a dash. |
| Arguments.Register | notify_whatsapp.py:84-87 | The recorded action carries both option strings, the derived destination, the help text and the default. A row with an action keeps it, and a row without one becomes `store`. |
| Arguments.BuildArguments | notify_whatsapp.py:49-88 | The loop leaves the parser with one action per table row, in table order. A row without an action is registered as `store`. Its defaults are the namespace an empty command line gives. |
| Arguments.DefaultsOfHas | notify_whatsapp.py:83-89 | Every action's destination is bound in the namespace an empty command line produces. |
| Arguments.DefaultsOfOnly | notify_whatsapp.py:83-89 | Nothing else is bound there. |
| Arguments.DefaultsOfAt | notify_whatsapp.py:83-89 | A destination named by no earlier action is bound to that action's default. |
| Arguments.TableDefaultsBlank | notify_whatsapp.py:53-81 | Every `store` row defaults to `''` and every `store_true` row to `False`. |
| Arguments.DefaultNamespaceBlank | notify_whatsapp.py:53-89 | With no option given, every value is `''` or `False`, so none is truthy. |
| Arguments.DefaultNamespaceKeys | notify_whatsapp.py:53-89 | Every row's destination is an attribute of the parsed namespace. |
| Arguments.DestOfLong | notify_whatsapp.py:85-87 | A long option `--name` with no dash in `name` is stored under `name`, provided the short option string is not itself a long one. This follows argparse, which takes the first long option string. |
| Arguments.RowDest | notify_whatsapp.py:53-89 | A row whose short option is short and whose long option is `--name` has destination `name`, which is bound in the default namespace. |
| Arguments.MediaTypeDefault | notify_whatsapp.py:56 | `media_type` is an attribute even when no option is given. |
| Arguments.PosterDefault | notify_whatsapp.py:68 | `poster` is an attribute even when no option is given. |
| Arguments.AuthDefault | notify_whatsapp.py:80 | `auth` is an attribute even when no option is given. |
| Templates.Lookup | notify_whatsapp.py:127-129 | A missing attribute formats as `''`. A present one formats as its text. |
| Templates.FormatMap | notify_whatsapp.py:129 | Text without braces is output unchanged. |
| Templates.NameEnd | notify_whatsapp.py:129 | After a single `{`, the field name is read up to its first `{`, `[`, `}`, `:` or `!`, or to the end of the string. |
| Templates.FormatEscaped | notify_whatsapp.py:129 | Literal text with its braces doubled is output unchanged by `format_map`. |
| Templates.FormatField | notify_whatsapp.py:129 | A `{name}` field with a plain key name is replaced by the looked-up value. |
| Templates.FormatBrace | notify_whatsapp.py:129 | A doubled brace outputs one brace. |
| Templates.FormatPlain | notify_whatsapp.py:129 | Any character other than a brace outputs itself. |
| Templates.KeyIsName | notify_whatsapp.py:37-40 | Every field name the templates use is looked up as a key, never as a position or an attribute path. |
| Templates.FieldKeysBound | notify_whatsapp.py:36-89 | Every field any template can name is an attribute of the namespace, even when no option is given. |
| Templates.FormatSource | notify_whatsapp.py:127-129 | For every template and namespace, `format_map` on the template's format string never fails. It yields each literal unchanged and each field replaced by its value (`''` when absent), in a single pass. |
| Templates.RenderBraceFree | notify_whatsapp.py:129 | With brace-free literals and values, the output holds no brace, so no placeholder is left. |
| Templates.TemplatesBraceFree | notify_whatsapp.py:36-41 | Whichever template is chosen, the rendered text holds no brace when the values hold none. |
| Templates.MovieLiterals | notify_whatsapp.py:37 | The literal text of the movie template holds no brace. |
| Templates.EpisodeLiterals | notify_whatsapp.py:38 | The literal text of the episode template holds no brace. |
| Templates.ShowLiterals | notify_whatsapp.py:39 | The literal text of the show template holds no brace. |
| Templates.SeasonLiterals | notify_whatsapp.py:40 | The literal text of the season template holds no brace. |
| Templates.RenderAllEmpty | notify_whatsapp.py:37-40 | With every field empty or absent, the output is the template's literal text alone, newlines included. |
| Templates.RenderNamedOnly | notify_whatsapp.py:128-129 | Two namespaces that agree on the fields a template names render it alike. |
| Templates.TemplateKeys | notify_whatsapp.py:36-41 | The template keys are exactly `movie`, `episode`, `show` and `season`. |
| Templates.VerbatimValue | notify_whatsapp.py:129 | A value `{title}` is output as `{title}`, not expanded again. |
| Templates.OpenInName | notify_whatsapp.py:129 | A `{` met while reading a field name is an error whatever follows it, as in `{a{b}}` and `{a{b}`. |
| Templates.UnclosedField | notify_whatsapp.py:129 | A field name that runs to the end of the string is an error: the field is never closed. |
| Templates.NonAsciiDigitName | notify_whatsapp.py:129 | A field named by a non-ASCII digit, U+0663, is reported as outside the model rather than looked up as a key. |
| Notify.SupportedExactly | notify_whatsapp.py:123 | A media type passes the gate exactly when it is one of the four template keys. |
| Notify.ImageUrl | notify_whatsapp.py:131 | The image address is the poster text followed by `.png`, with no condition. |
| Notify.ImageUrlAlreadyPng | notify_whatsapp.py:131 | `p.png` becomes `p.png.png`. |
| Notify.Headers | notify_whatsapp.py:94-96 | `Authorization` is the only possible header. It is present exactly when auth is on, and then holds the configured token. |
| Notify.Payload | notify_whatsapp.py:98-103 | The payload has exactly the fields `phone`, `image_url`, `caption` and `compress`, none with a file name. They hold the configured phone, the image address, the caption and `true`. |
| Notify.Decide | notify_whatsapp.py:119-131 | Stops exactly when the poster is empty or the media type is not a template key, and the poster gate comes first. Otherwise the caption is the chosen template rendered over the namespace, the image address is poster + `.png`, and auth is the `-auth` flag. |
| Notify.SendWebhook | notify_whatsapp.py:91-103 | The URL is the configured one. `Authorization` is present exactly when auth is on, and then holds the configured token, with no other header. The payload has exactly the fields `phone`, `image_url`, `caption` and `compress`, each without a file name. They hold the configured phone, the image address, the caption and `true`. |
| Notify.RunMain | notify_whatsapp.py:112-134 | Sends nothing exactly when a gate fails, and then reports that gate's reason. Otherwise it sends exactly one request: the configured URL; `Headers` for the `-auth` flag; and `Payload` for the caption (the chosen template rendered over the namespace) and poster + `.png`. |
| Notify.BlankNamespaceNotSent | notify_whatsapp.py:119-121 | If nothing in the namespace is truthy, the poster gate stops the script. |
| Notify.CaptionNamedOnly | notify_whatsapp.py:127-131 | Attributes the chosen template does not name do not change the outcome. |
| Notify.CaptionBraceFree | notify_whatsapp.py:127-129 | When the values on the command line hold no brace, neither does the caption sent, so no placeholder is left in it. |
| Notify.EmptyCommandLineNotSent | notify_whatsapp.py:53-121 | With an empty command line, the namespace has the gate's attributes and nothing is sent. |

## Left out

- Notify.Payload: the multipart fields are a `map`, which has no order. `requests` sends the parts in the insertion order of `multipart_data` (notify_whatsapp.py:98-103): `phone`, `image_url`, `caption`, `compress`. The model does not state that order.
- The HTTP POST, its status code and response text, and the `except` branch that returns `None` (notify_whatsapp.py:105-110). These are network I/O. `SendWebhook` ends with the request description.
- `log` and every call to it (notify_whatsapp.py:43-47 and the calls in the main block). They append to a file and read the clock. The model assumes `log` never fails. With `-log` and a log file that cannot be opened, `log("Script started", …)` at notify_whatsapp.py:116 raises outside any `try`, and the script stops before the gates, sending nothing.
- The `log_file_path` entry of the configuration. Only `log` reads it.
- argparse's parsing of an actual command line, its automatic `-h` option, its usage and help output, and `exit()`. The model keeps the registered actions and the namespace an empty command line gives. Help texts are recorded but not interpreted.
- The interactive driver of auth.py (lines 9-15), which reads the credentials with `input` and prints the header.
- `format_map` features the templates do not use: attribute and index access, conversions, format specifications and nested fields. A format string that uses them gives `NotModelled`, even where Python would raise an error of its own further on (for example `{0:x}`, a positional field).
- Templates.FormatMap: Python reads a field name made only of Unicode decimal digits as a position, and `format_map` then raises. The model has no Unicode digit table, so a name made only of ASCII digits and non-ASCII characters (and holding at least one of the latter) gives `NotModelled`. This holds even when the name is in fact a key, as `{é}` is.
- A position with more digits than a 64-bit index can hold raises "Too many decimal digits" in Python. The model reports it as `PositionalField`, the error any other position gets.
- The templates are written as token sequences. The model does not prove that each one spells out, character for character, the format string at notify_whatsapp.py:37-40, because evaluating those long literals is beyond the verifier's budget.
- Arguments.DefaultNamespaceKeys: states that every row's destination is bound, without naming it. The attribute name is shown for the rows the main block and the templates read (`media_type`, `poster`, `auth` and the twelve template fields); the other rows' names are not derived.
- Audio-metadata lookup, the Telegram dispatcher and the image download retry loop. None of them appear in the source of this script.

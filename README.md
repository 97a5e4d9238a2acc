# Share-link decoding of YtFlow, modelled in Dafny

This project models `ytflow-app-util/src/share_link/decode.rs`: the
entry point that turns a proxy share link (`ss://…`, `trojan://…`,
`http(s)://…`, `socks5://…`) into a proxy, and the two helpers it offers the
protocol decoders. The model proves properties of each piece.

The decode works in these steps:

1. The link is trimmed of Unicode white space and parsed as a URL. A parse
   failure is `InvalidUrl`.
2. The URL's query pairs are collected into an ordered map (`QueryMap`, a
   `BTreeMap`). A key given twice keeps its last value.
3. The scheme selects one of four protocol decoders. An `http`/`https` link
   whose host is `t.me` in any ASCII case is refused as `UnknownScheme`, as is
   any unknown scheme.
4. The selected decoder takes the URL and the map, and removes the keys it
   uses. Its error is passed on unchanged.
5. If the decoder succeeds but keys remain, the least one (in key order) is
   reported as `ExtraParameters`.

The helpers are:

- `extract_name_from_frag`: the display name. It is the URL fragment,
  percent-decoded once and read as UTF-8. Without a fragment it is the
  destination's text form.
- `parse_host_transparent` / `map_host_name`: the URL's host text parsed again
  with `Host::parse`, then mapped to the proxy engine's `HostName`.

The modules:

- `Results`: `Option` and `Result`.
- `Text`: `str::trim` (Unicode White_Space) and `eq_ignore_ascii_case`.
- `Utf8`: UTF-8 per RFC 3629, `str::from_utf8` as `Decode`, and its inverse
  `Encode`.
- `Percent`: the `percent_encoding` crate's decoding. A `%` not followed by two
  hex digits stays as it is.
- `OrderedMap`: the `BTreeMap` operations the decoder uses. These are key
  order, `collect` and `pop_first`.
- `Urls`: the values read from the `url` crate, and the engine's
  `HostName` / `DestinationAddr`.
- `ShareLink`: the decoder itself.
- `DecodeTests`: the source's unit tests, restated as lemmas.

Code the model cannot see enters as function-valued parameters:

- `Url::parse` (`UrlParser`)
- `Host::parse` (`HostParser`)
- each protocol decoder's `decode_share_link`. A `Decoder<P>` maps the URL and
  the query map to a result and the map it leaves.
- `DestinationAddr`'s `to_string` (`display`)

Lemmas quantify over all of these parameters. The tests that depend on the
WHATWG parser take its answer as a hypothesis.

`decode_share_link` is modelled twice:

- `DecodeShareLink` is the imperative method. It builds the map with a loop
  (`Collect`), hands it to the decoder, and pops its first entry.
- `DecodeLink` is the function that specifies the method. The properties are
  proved about this function.

Every failure is one value of `ShareLink.DecodeError`
(ytflow-app-util/src/share_link/decode.rs:21-35). Its variants carry the
field name or the extra key, as the Rust enum does.

## Model

| member | source | states |
|---|---|---|
| `ShareLink.DecodeShareLink` | ytflow-app-util/src/share_link/decode.rs:41-66 | The method computes exactly `DecodeLink`. A decoder runs iff the trimmed link parses and its scheme is accepted, and the one that runs is the selected one. |
| `ShareLink.DecodeLink` | ytflow-app-util/src/share_link/decode.rs:41-66 | No URL gives `InvalidUrl`. A refused scheme gives `UnknownScheme`. A decoder error comes back unchanged. After a decoder success, the result is `Ok` iff the remaining map is empty. Otherwise it is `ExtraParameters(k)`, with `k` a remaining key no greater than any other. |
| `ShareLink.SelectProtocol` | ytflow-app-util/src/share_link/decode.rs:45-58 | Each protocol is chosen iff its scheme matches. HTTP is chosen only when the host is not `t.me` in any ASCII case. Every refusal is `UnknownScheme`. |
| `ShareLink.UnknownSchemeExactly` | ytflow-app-util/src/share_link/decode.rs:45-58 | Dispatch fails iff the scheme is none of the five, or it is http/https with a host that ASCII-lower-cases to `t.me`. |
| `ShareLink.ReservedHostRefused` | ytflow-app-util/src/share_link/decode.rs:48-55 | An http/https link to `t.me` in any case decodes to `UnknownScheme`, and replacing the HTTP decoder by any other does not change the outcome. |
| `ShareLink.PaddingIgnored` | ytflow-app-util/src/share_link/decode.rs:42 | White space added before and after a link never changes its decode result. |
| `ShareLink.ExtraParameterComesFromLink` | ytflow-app-util/src/share_link/decode.rs:43-62 | If decoders only remove keys, a reported extra parameter is a key of one of the link's own query pairs. |
| `ShareLink.ExtractNameFromFrag` | ytflow-app-util/src/share_link/decode.rs:68-76 | Without a fragment the name is the destination's text. With one, a name is returned iff some string's UTF-8 is the percent-decoded fragment, and its UTF-8 is exactly those bytes. Every error is `InvalidEncoding`. |
| `ShareLink.PlainFragmentIsName` | ytflow-app-util/src/share_link/decode.rs:69-74 | A fragment with no `%` is the name unchanged. |
| `ShareLink.EscapedFragmentName` | ytflow-app-util/src/share_link/decode.rs:71-74 | In `p%hlq` with no other `%`, the escape of an ASCII character becomes that character, and `p` and `q` are kept. |
| `ShareLink.BadByteFragmentInvalid` | ytflow-app-util/src/share_link/decode.rs:71-73 | An escape of a byte that cannot start a UTF-8 sequence, after `%`-free text, gives `InvalidEncoding`, whatever follows. |
| `ShareLink.MapHostName` | ytflow-app-util/src/share_link/decode.rs:89-97 | IPv4 and IPv6 hosts become `Ip` with the same address, and a domain becomes `DomainName` with the same text. |
| `ShareLink.MapHostNameBijective` | ytflow-app-util/src/share_link/decode.rs:89-97 | `map_host_name` loses nothing: `HostOf` inverts it on both sides. |
| `ShareLink.ParseHostTransparent` | ytflow-app-util/src/share_link/decode.rs:81-87 | It fails iff `Host::parse` of the host text (empty when absent) fails, and then with `InvalidEncoding`. On success it yields the parsed host, mapped. |
| `ShareLink.MissingHostIsEmpty` | ytflow-app-util/src/share_link/decode.rs:82 | A URL without a host is treated exactly as one whose host is the empty text. |
| `OrderedMap.FromPairs` | ytflow-app-util/src/share_link/decode.rs:43 | The collected map's keys are exactly the keys of the pairs. |
| `OrderedMap.Collect` | ytflow-app-util/src/share_link/decode.rs:43 | Inserting the pairs in order yields `FromPairs(pairs)`. |
| `OrderedMap.FromPairsContents` | ytflow-app-util/src/share_link/decode.rs:43 | The collected map holds exactly the keys of the pairs, each with the value of its last occurrence. |
| `OrderedMap.PopFirst` | ytflow-app-util/src/share_link/decode.rs:61-62 | It is `None` iff the map is empty. Otherwise it yields a key of the map with its value and the map without that key, and the key is no greater than any key of the map. |
| `OrderedMap.BelowTotal` | ytflow-app-util/src/share_link/decode.rs:39 | The key order of `QueryMap` is total. |
| `OrderedMap.BelowTransitive` | ytflow-app-util/src/share_link/decode.rs:39 | The key order is transitive. |
| `OrderedMap.BelowAntisymmetric` | ytflow-app-util/src/share_link/decode.rs:39 | The key order is antisymmetric, so the least remaining key is unique. |
| `OrderedMap.LeastExists` | ytflow-app-util/src/share_link/decode.rs:61 | Every non-empty key set has a least key, so `pop_first` on a non-empty map always yields one. |
| `Text.Trim` | ytflow-app-util/src/share_link/decode.rs:42 | `trim` yields the infix after the leading white space. Only white space is dropped on either side, and neither end of the result is white space. |
| `Text.TrimIgnoresPadding` | ytflow-app-util/src/share_link/decode.rs:42 | Trimming a string with white space added around it gives what trimming the string gives. |
| `Text.TrimIdempotent` | ytflow-app-util/src/share_link/decode.rs:42 | Trimming twice is trimming once. |
| `Text.EqIgnoreAsciiCase` | ytflow-app-util/src/share_link/decode.rs:51 | `eq_ignore_ascii_case` holds iff the ASCII-lower-cased strings are equal. |
| `Utf8.Decode` | ytflow-app-util/src/share_link/decode.rs:71 | A decoded string has between a quarter of the byte count and the byte count in characters. Which bytes it accepts is stated by `Utf8.DecodeIffEncode`. |
| `Utf8.DecodeEncode` | ytflow-app-util/src/share_link/decode.rs:71 | Every string's UTF-8 decodes back to it. |
| `Utf8.EncodeDecode` | ytflow-app-util/src/share_link/decode.rs:71 | Bytes decode to a string only when they are that string's UTF-8. |
| `Utf8.DecodeIffEncode` | ytflow-app-util/src/share_link/decode.rs:71 | Bytes decode to `s` iff they are `s`'s UTF-8. |
| `Utf8.DecodeStopsAtBadLead` | ytflow-app-util/src/share_link/decode.rs:71-73 | Valid text followed by a byte that cannot lead a sequence is not UTF-8. |
| `Percent.PercentDecode` | ytflow-app-util/src/share_link/decode.rs:71 | Decoding never lengthens the bytes. What it computes is stated by the lemmas below. |
| `Percent.StrayPercentKept` | ytflow-app-util/src/share_link/decode.rs:71 | A `%` not followed by two hex digits is kept, and decoding resumes right after it. |
| `Percent.DecodeOfEncode` | ytflow-app-util/src/share_link/decode.rs:71 | Percent-decoding undoes percent-encoding of every byte. |
| `Percent.DecodesOnce` | ytflow-app-util/src/share_link/decode.rs:71 | One pass only: a doubly escaped text decodes to the singly escaped one. |
| `Percent.DecodeWithoutPercent` | ytflow-app-util/src/share_link/decode.rs:71 | Bytes holding no `%` decode to themselves. |
| `Percent.DecodePlainPrefix` | ytflow-app-util/src/share_link/decode.rs:71 | A `%`-free prefix passes through, whatever follows it. |
| `DecodeTests.FragmentIsDecoded` | ytflow-app-util/src/share_link/decode.rs:105-116 | `ss://test#cabc%2fabca` names `cabc/abca`. |
| `DecodeTests.InvalidUtf8Fragment` | ytflow-app-util/src/share_link/decode.rs:118-129 | `ss://test#cabc%ff%ffabca` gives `InvalidEncoding`. |
| `DecodeTests.FragmentDecodedOnce` | ytflow-app-util/src/share_link/decode.rs:71 | `a%252f` names `a%2f`: one decode pass. |
| `DecodeTests.NoFragmentNamesDestination` | ytflow-app-util/src/share_link/decode.rs:75 | Without a fragment the name is the destination's text. |
| `DecodeTests.HostParsedTransparently` | ytflow-app-util/src/share_link/decode.rs:131-143 | `3.187.225.7`, `a.co` and `[::1]` become IPv4, domain and IPv6 loopback, given `Host::parse`'s classification. |
| `DecodeTests.HostRefusedIsInvalidEncoding` | ytflow-app-util/src/share_link/decode.rs:144-149 | A host `a%25b` that `Host::parse` refuses gives `InvalidEncoding`. |
| `DecodeTests.MapHostNameCases` | ytflow-app-util/src/share_link/decode.rs:150-162 | The three hosts of the test map to the expected `HostName`s. |

## Left out

- `Url::parse` and `Host::parse` are foreign code (the WHATWG URL Standard, in the `url` crate). They are parameters. The model's `Url` holds the scheme, user name, password, host text, port, path, fragment and decoded query pairs. A modelled protocol decoder sees only these, and not, for example, the raw query string or the serialised URL.
- The four protocol decoders (`ShadowsocksProxy`, `TrojanProxy`, `HttpProxy`, `Socks5Proxy`) are not part of this model. Each is a parameter that returns its result and the query map it leaves. The proxy type is a type parameter.
- The query map passed by `&mut` and mutated in place is modelled as a map value. The decoder gets it and returns what it leaves, and `DecodeShareLink` reassigns its local map. Aliasing of the borrowed map is not modelled.
- `DestinationAddr`'s `Display` (the `host:port` text) is a parameter `display`.
- `BASE64_ENGINE` is a static configuration of the `base64` crate with no logic of its own. It is not modelled.
- `HostName::from_domain_name` validates domain names, and the code expects that to succeed. `MapHostName` takes the domain text as it is.
- The `thiserror` messages of `DecodeError` and the `Cow` borrowing of map entries are not modelled.
- `ytflow/src/flow.rs` holds module declarations and re-exports only, and is not modelled.
- `Text.EqIgnoreAsciiCase` compares characters, while Rust compares UTF-8 bytes. The two agree, because ASCII folding changes only ASCII bytes and UTF-8 is injective.
- `OrderedMap.Below` orders keys by code point. Rust's `String` order is by UTF-8 bytes, and the two agree.

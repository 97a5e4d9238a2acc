/** `share_link::decode`: turning a share link into a proxy. The link is
    trimmed and parsed as a URL; its query pairs become an ordered map; the
    scheme selects a protocol decoder, which removes from the map the keys it
    understands; any key left over fails the whole decode. Two helpers serve
    the protocol decoders: the display name from the fragment, and the host
    re-parsed without the scheme's influence. */
module ShareLink {
  import opened Results
  import opened Text
  import opened Utf8
  import opened Percent
  import opened OrderedMap
  import opened Urls

  /** Why a link could not be decoded. */
  datatype DecodeError =
    | InvalidUrl
    | InvalidEncoding
    | MissingInfo(field: string)
    | UnknownValue(field: string)
    | UnknownScheme
    | ExtraParameters(key: string)

  type DecodeResult<T> = Result<T, DecodeError>

  /** The query parameters, ordered by key. */
  type QueryMap = map<string, string>

  /** What a protocol decoder hands back: its result, and the query map with
      the keys it used taken out. */
  datatype DecoderOutput<P> = DecoderOutput(result: DecodeResult<P>, remaining: QueryMap)

  /** A protocol decoder's `decode_share_link(&url, &mut queries)`. */
  type Decoder<P> = (Url, QueryMap) -> DecoderOutput<P>

  /** The four protocol decoders the dispatcher knows. */
  datatype Decoders<P> = Decoders(
    shadowsocks: Decoder<P>,
    trojan: Decoder<P>,
    http: Decoder<P>,
    socks5: Decoder<P>)

  datatype Protocol = Shadowsocks | Trojan | Http | Socks5

  function DecoderFor<P>(decoders: Decoders<P>, protocol: Protocol): Decoder<P> {
    match protocol
    case Shadowsocks => decoders.shadowsocks
    case Trojan => decoders.trojan
    case Http => decoders.http
    case Socks5 => decoders.socks5
  }

  /** The host of Telegram deep links, which use `http`/`https` but are not proxies. */
  const ReservedHost: string := "t.me"

  predicate IsReservedHost(url: Url) {
    url.host.Some? && EqIgnoreAsciiCase(url.host.value, ReservedHost)
  }

  predicate IsHttpScheme(scheme: string) {
    scheme == "http" || scheme == "https"
  }

  /** The dispatch on the scheme: which decoder the link goes to, or
      `UnknownScheme`. Schemes are compared exactly (the URL parser has
      already lower-cased them). */
  function SelectProtocol(url: Url): (r: DecodeResult<Protocol>)
    ensures r == Ok(Shadowsocks) <==> url.scheme == "ss"
    ensures r == Ok(Trojan) <==> url.scheme == "trojan"
    ensures r == Ok(Http) <==> IsHttpScheme(url.scheme) && !IsReservedHost(url)
    ensures r == Ok(Socks5) <==> url.scheme == "socks5"
    ensures r.Err? ==> r.error == UnknownScheme
  {
    match url.scheme
    case "ss" => Ok(Shadowsocks)
    case "trojan" => Ok(Trojan)
    case "http" | "https" => if IsReservedHost(url) then Err(UnknownScheme) else Ok(Http)
    case "socks5" => Ok(Socks5)
    case _ => Err(UnknownScheme)
  }

  /** A link is refused as `UnknownScheme` exactly when its scheme is none of
      the five known ones, or it is an `http`/`https` link to `t.me` in any
      ASCII case. */
  lemma UnknownSchemeExactly(url: Url)
    ensures SelectProtocol(url).Err? <==>
      (url.scheme !in {"ss", "trojan", "http", "https", "socks5"}
       || (IsHttpScheme(url.scheme) && AsciiLowercase(url.host.UnwrapOr("")) == "t.me" && url.host.Some?))
  {
    if url.host.Some? {
      assert AsciiLowercase(ReservedHost) == ReservedHost;
    }
  }

  /** The whole decode, stated as one function of the link, the URL parser
      and the protocol decoders. */
  function DecodeLink<P>(link: string, parse: UrlParser, decoders: Decoders<P>): (r: DecodeResult<P>)
    // a text that is no URL is `InvalidUrl`
    ensures parse(Trim(link)).None? ==> r == Err(InvalidUrl)
    // an unknown scheme, or a Telegram link, is `UnknownScheme`
    ensures parse(Trim(link)).Some? && SelectProtocol(parse(Trim(link)).value).Err?
            ==> r == Err(UnknownScheme)
    ensures parse(Trim(link)).Some? && SelectProtocol(parse(Trim(link)).value).Ok? ==>
      var url := parse(Trim(link)).value;
      var out := DecoderFor(decoders, SelectProtocol(url).value)(url, FromPairs(url.queryPairs));
      // the decoder's own error is passed on unchanged
      && (out.result.Err? ==> r == Err(out.result.error))
      // success exactly when the decoder used every query key
      && (out.result.Ok? ==> (r == Ok(out.result.value) <==> out.remaining == map[]))
      // otherwise the least key left over is reported, and only that one
      && (out.result.Ok? && out.remaining != map[] ==>
            r.Err? && r.error.ExtraParameters? && r.error.key in out.remaining
            && forall k :: k in out.remaining ==> Below(r.error.key, k))
  {
    match parse(Trim(link))
    case None => Err(InvalidUrl)
    case Some(url) =>
      match SelectProtocol(url)
      case Err(e) => Err(e)
      case Ok(protocol) =>
        var out := DecoderFor(decoders, protocol)(url, FromPairs(url.queryPairs));
        match out.result
        case Err(e) => Err(e)
        case Ok(proxy) =>
          match PopFirst(out.remaining)
          case None => Ok(proxy)
          case Some((key, _, _)) => Err(ExtraParameters(key))
  }

  /** `decode_share_link`. The query map is built, lent to the selected
      decoder, and afterwards its first remaining entry, if any, is popped.
      `invoked` records which decoder ran, if any. */
  method DecodeShareLink<P>(link: string, parse: UrlParser, decoders: Decoders<P>)
    returns (r: DecodeResult<P>, ghost invoked: Option<Protocol>)
    ensures r == DecodeLink(link, parse, decoders)
    // no decoder runs on a text that is not a URL, nor on a refused scheme
    ensures invoked.Some? <==>
      parse(Trim(link)).Some? && SelectProtocol(parse(Trim(link)).value).Ok?
    ensures invoked.Some? ==> SelectProtocol(parse(Trim(link)).value) == Ok(invoked.value)
  {
    var parsed := parse(Trim(link));
    if parsed.None? {
      return Err(InvalidUrl), None;
    }
    var url := parsed.value;
    var queries := Collect(url.queryPairs);
    var selected := SelectProtocol(url);
    if selected.Err? {
      return Err(selected.error), None;
    }
    invoked := Some(selected.value);
    var out := DecoderFor(decoders, selected.value)(url, queries);
    if out.result.Err? {
      return Err(out.result.error), invoked;
    }
    queries := out.remaining;
    var first := PopFirst(queries);
    if first.Some? {
      var (key, _, rest) := first.value;
      queries := rest;
      return Err(ExtraParameters(key)), invoked;
    }
    r := Ok(out.result.value);
  }

  /** White space around a link never changes how it decodes. */
  lemma PaddingIgnored<P>(before: string, link: string, after: string,
                          parse: UrlParser, decoders: Decoders<P>)
    requires AllWhitespace(before) && AllWhitespace(after)
    ensures DecodeLink(before + link + after, parse, decoders) == DecodeLink(link, parse, decoders)
  {
    TrimIgnoresPadding(before, link, after);
  }

  /** The HTTP decoder never sees a Telegram link: whatever it would return,
      an `http`/`https` link to `t.me` decodes to `UnknownScheme`. */
  lemma ReservedHostRefused<P>(link: string, parse: UrlParser, decoders: Decoders<P>, http: Decoder<P>)
    requires parse(Trim(link)).Some?
    requires IsHttpScheme(parse(Trim(link)).value.scheme)
    requires AsciiLowercase(parse(Trim(link)).value.host.UnwrapOr("")) == "t.me"
    requires parse(Trim(link)).value.host.Some?
    ensures DecodeLink(link, parse, decoders) == Err(UnknownScheme)
    ensures DecodeLink(link, parse, decoders.(http := http)) == DecodeLink(link, parse, decoders)
  {
    UnknownSchemeExactly(parse(Trim(link)).value);
  }

  /** A decoder that only removes keys. */
  ghost predicate OnlyRemoves<P>(decoder: Decoder<P>) {
    forall url, queries :: decoder(url, queries).remaining.Keys <= queries.Keys
  }

  /** When the decoders only remove keys, a reported extra parameter is a key
      the link itself carries. */
  lemma ExtraParameterComesFromLink<P>(link: string, parse: UrlParser, decoders: Decoders<P>, key: string)
    requires OnlyRemoves(decoders.shadowsocks) && OnlyRemoves(decoders.trojan)
    requires OnlyRemoves(decoders.http) && OnlyRemoves(decoders.socks5)
    requires parse(Trim(link)).Some?
    requires SelectProtocol(parse(Trim(link)).value).Ok?
    requires DecodeLink(link, parse, decoders) == Err(ExtraParameters(key))
    requires var url := parse(Trim(link)).value;
      DecoderFor(decoders, SelectProtocol(url).value)(url, FromPairs(url.queryPairs)).result.Ok?
    ensures exists i :: 0 <= i < |parse(Trim(link)).value.queryPairs|
                        && parse(Trim(link)).value.queryPairs[i].0 == key
  {
    var url := parse(Trim(link)).value;
    var decoder := DecoderFor(decoders, SelectProtocol(url).value);
    var out := decoder(url, FromPairs(url.queryPairs));
    assert OnlyRemoves(decoder);
    assert key in out.remaining;
    assert key in FromPairs(url.queryPairs).Keys;
  }

  /** `extract_name_from_frag`: the fragment, percent-decoded once and read
      as UTF-8, or the destination's text (`display` is its `to_string`)
      when the URL has no fragment. */
  function ExtractNameFromFrag(url: Url, dest: DestinationAddr, display: DestinationAddr -> string)
    : (r: DecodeResult<string>)
    ensures url.fragment.None? ==> r == Ok(display(dest))
    ensures r.Err? ==> r.error == InvalidEncoding
    // with a fragment, the name is the text whose UTF-8 bytes are the decoded
    // fragment, and there is a name exactly when such a text exists
    ensures url.fragment.Some? ==>
      var bytes := PercentDecode(Encode(url.fragment.value));
      && (r.Ok? ==> Encode(r.value) == bytes)
      && (r.Err? <==> forall s :: Encode(s) != bytes)
  {
    match url.fragment
    case None => Ok(display(dest))
    case Some(fragment) =>
      var bytes := PercentDecode(Encode(fragment));
      match Decode(bytes)
      case None =>
        assert forall s :: Encode(s) != bytes by {
          forall s ensures Encode(s) != bytes {
            DecodeIffEncode(bytes, s);
          }
        }
        Err(InvalidEncoding)
      case Some(name) =>
        EncodeDecode(bytes, name);
        Ok(name)
  }

  /** A fragment with no `%` in it is the name as it stands. */
  lemma PlainFragmentIsName(url: Url, dest: DestinationAddr, display: DestinationAddr -> string)
    requires url.fragment.Some? && '%' !in url.fragment.value
    ensures ExtractNameFromFrag(url, dest, display) == Ok(url.fragment.value)
  {
    var f := url.fragment.value;
    AsciiByteInEncode(f, '%');
    DecodeWithoutPercent(Encode(f));
    DecodeEncode(f);
  }

  /** An escape of an ASCII character, between text holding no other `%`,
      is replaced by that character and nothing else changes. */
  lemma EscapedFragmentName(url: Url, dest: DestinationAddr, display: DestinationAddr -> string,
                            p: string, h: char, l: char, q: string)
    requires '%' !in p && '%' !in q
    requires h as int < 0x80 && l as int < 0x80 && IsHexDigit(h as int) && IsHexDigit(l as int)
    requires EscapeValue(h, l) < 0x80
    requires url.fragment == Some(p + ['%', h, l] + q)
    ensures ExtractNameFromFrag(url, dest, display) == Ok(p + [EscapeValue(h, l) as char] + q)
  {
    var v := EscapeValue(h, l);
    var name := p + [v as char] + q;
    EscapedFragmentBytes(p, h, l, q);
    AsciiByteInEncode(q, '%');
    DecodeWithoutPercent(Encode(q));
    AsciiInfixEncoding(p, v as char, q);
    DecodeEncode(name);
  }

  /** An escape of a byte that cannot begin a UTF-8 character, after text
      holding no `%`, makes the name `InvalidEncoding`, whatever follows. */
  lemma BadByteFragmentInvalid(url: Url, dest: DestinationAddr, display: DestinationAddr -> string,
                               p: string, h: char, l: char, q: string)
    requires '%' !in p
    requires h as int < 0x80 && l as int < 0x80 && IsHexDigit(h as int) && IsHexDigit(l as int)
    requires NeverLeads(EscapeValue(h, l))
    requires url.fragment == Some(p + ['%', h, l] + q)
    ensures ExtractNameFromFrag(url, dest, display) == Err(InvalidEncoding)
  {
    EscapedFragmentBytes(p, h, l, q);
    DecodeStopsAtBadLead(p, [EscapeValue(h, l)] + PercentDecode(Encode(q)));
  }

  /** `map_host_name`: IPv4 and IPv6 addresses become `Ip`, a domain becomes
      `DomainName` (its validity is taken as the code takes it). */
  function MapHostName(host: Host): (r: HostName)
    ensures r.Ip? <==> !host.Domain?
    ensures host.Domain? ==> r == DomainName(host.name)
    ensures host.Ipv4? ==> r == Ip(V4(host.v4))
    ensures host.Ipv6? ==> r == Ip(V6(host.v6))
  {
    match host
    case Domain(name) => DomainName(name)
    case Ipv4(a) => Ip(V4(a))
    case Ipv6(a) => Ip(V6(a))
  }

  /** The inverse of `MapHostName`: no classification is lost. */
  function HostOf(name: HostName): Host {
    match name
    case DomainName(d) => Domain(d)
    case Ip(V4(a)) => Ipv4(a)
    case Ip(V6(a)) => Ipv6(a)
  }

  lemma MapHostNameBijective(host: Host, name: HostName)
    ensures HostOf(MapHostName(host)) == host
    ensures MapHostName(HostOf(name)) == name
  {
  }

  /** `parse_host_transparent`: the host text (empty when the URL has none)
      parsed again with `Host::parse`; any failure is `InvalidEncoding`. */
  function ParseHostTransparent(url: Url, hostParse: HostParser): (r: DecodeResult<HostName>)
    ensures r.Err? <==> hostParse(url.host.UnwrapOr("")).None?
    ensures r.Err? ==> r.error == InvalidEncoding
    ensures r.Ok? ==> HostOf(r.value) == hostParse(url.host.UnwrapOr("")).value
  {
    match hostParse(url.host.UnwrapOr(""))
    case None => Err(InvalidEncoding)
    case Some(host) => Ok(MapHostName(host))
  }

  /** A URL without a host is treated as one whose host is empty. */
  lemma MissingHostIsEmpty(url: Url, hostParse: HostParser)
    requires url.host.None?
    ensures ParseHostTransparent(url, hostParse) == ParseHostTransparent(url.(host := Some("")), hostParse)
  {
  }
}

/** The values the decoder reads from the `url` crate and the ones it builds
    for the proxy engine. Parsing itself is the `url` crate's (the WHATWG URL
    Standard) and enters the model as a function supplied by the caller. */
module Urls {
  import opened Results
  import opened Utf8

  type u16 = x: int | 0 <= x < 0x1_0000

  datatype Ipv4Addr = Ipv4Addr(a: byte, b: byte, c: byte, d: byte)

  /** The eight 16-bit groups of an IPv6 address. */
  type Ipv6Groups = g: seq<u16> | |g| == 8 witness [0, 0, 0, 0, 0, 0, 0, 0]

  datatype Ipv6Addr = Ipv6Addr(groups: Ipv6Groups)

  const Ipv6Localhost := Ipv6Addr([0, 0, 0, 0, 0, 0, 0, 1])

  /** `url::Host`: what host parsing classifies a host as. */
  datatype Host = Domain(name: string) | Ipv4(v4: Ipv4Addr) | Ipv6(v6: Ipv6Addr)

  /** `std::net::IpAddr`. */
  datatype IpAddr = V4(v4: Ipv4Addr) | V6(v6: Ipv6Addr)

  /** `HostName` of the proxy engine: an address or a domain name. */
  datatype HostName = Ip(ip: IpAddr) | DomainName(domain: string)

  /** `DestinationAddr` of the proxy engine: where a proxy is reached. */
  datatype DestinationAddr = DestinationAddr(host: HostName, port: u16)

  /** A parsed URL: `scheme()`, `username()`, `password()`, `host_str()`,
      `port()`, `path()`, `fragment()` and the decoded `query_pairs()`. The
      dispatcher reads the scheme, host, fragment and query pairs; the
      protocol decoders may read any of them. */
  datatype Url = Url(
    scheme: string,
    username: string,
    password: Option<string>,
    host: Option<string>,
    port: Option<u16>,
    path: string,
    fragment: Option<string>,
    queryPairs: seq<(string, string)>)

  /** `Url::parse`: a URL, or None when the text is not one. */
  type UrlParser = string -> Option<Url>

  /** `Host::parse`: the host a text denotes under the rules for special
      schemes, or None when it denotes none. */
  type HostParser = string -> Option<Host>
}

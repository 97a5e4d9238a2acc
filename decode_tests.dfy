/** The unit tests that accompany the decoder, restated as lemmas about the
    model. Where a test goes through `Url::parse` or `Host::parse`, the
    outcome that the WHATWG parser gives is a hypothesis of the lemma.
    Fragments are written as prefix, escape and suffix, so that the text of
    a test is `prefix + escape + suffix`. */
module DecodeTests {
  import opened Results
  import opened Percent
  import opened Urls
  import opened ShareLink

  /** `ss://test#<fragment>` once parsed. */
  function FragmentUrl(fragment: string): Url {
    Url("ss", "", None, Some("test"), None, "", Some(fragment), [])
  }

  /** `ss://<host>:<port>` once parsed; a non-special scheme keeps the host text as written. */
  function HostUrl(host: string, port: u16): Url {
    Url("ss", "", None, Some(host), Some(port), "", None, [])
  }

  const ExampleDest := DestinationAddr(DomainName("example.com"), 1234)

  /** `cabc%2fabca` names `cabc/abca`. */
  lemma FragmentIsDecoded(display: DestinationAddr -> string, prefix: string, suffix: string)
    requires prefix == "cabc" && suffix == "abca"
    ensures prefix + "%2f" + suffix == "cabc%2fabca"
    ensures ExtractNameFromFrag(FragmentUrl(prefix + "%2f" + suffix), ExampleDest, display)
         == Ok(prefix + "/" + suffix)
  {
    assert "%2f" == ['%', '2', 'f'];
    EscapedFragmentName(FragmentUrl(prefix + "%2f" + suffix), ExampleDest, display, prefix, '2', 'f', suffix);
    assert EscapeValue('2', 'f') as char == '/';
  }

  /** `cabc%ff%ffabca` decodes to bytes that are not UTF-8: `InvalidEncoding`. */
  lemma InvalidUtf8Fragment(display: DestinationAddr -> string, prefix: string, suffix: string)
    requires prefix == "cabc" && suffix == "%ffabca"
    ensures prefix + "%ff" + suffix == "cabc%ff%ffabca"
    ensures ExtractNameFromFrag(FragmentUrl(prefix + "%ff" + suffix), ExampleDest, display)
         == Err(InvalidEncoding)
  {
    assert "%ff" == ['%', 'f', 'f'];
    BadByteFragmentInvalid(FragmentUrl(prefix + "%ff" + suffix), ExampleDest, display, prefix, 'f', 'f', suffix);
  }

  /** Decoding happens once: `a%252f` names `a%2f`, not `a/`. */
  lemma FragmentDecodedOnce(display: DestinationAddr -> string, prefix: string, suffix: string)
    requires prefix == "a" && suffix == "2f"
    ensures prefix + "%25" + suffix == "a%252f" && prefix + "%" + suffix == "a%2f"
    ensures ExtractNameFromFrag(FragmentUrl(prefix + "%25" + suffix), ExampleDest, display)
         == Ok(prefix + "%" + suffix)
  {
    assert "%25" == ['%', '2', '5'];
    EscapedFragmentName(FragmentUrl(prefix + "%25" + suffix), ExampleDest, display, prefix, '2', '5', suffix);
    assert EscapeValue('2', '5') as char == '%';
  }

  /** Without a fragment the name is the destination's display form. */
  lemma NoFragmentNamesDestination(display: DestinationAddr -> string)
    ensures ExtractNameFromFrag(HostUrl("test", 1080), ExampleDest, display) == Ok(display(ExampleDest))
  {
  }

  /** An IPv4 address, a domain and a bracketed IPv6 address, each parsed
      again as `Host::parse` classifies it. */
  lemma HostParsedTransparently(hostParse: HostParser)
    requires hostParse("3.187.225.7") == Some(Ipv4(Ipv4Addr(3, 187, 225, 7)))
    requires hostParse("a.co") == Some(Domain("a.co"))
    requires hostParse("[::1]") == Some(Ipv6(Ipv6Localhost))
    ensures ParseHostTransparent(HostUrl("3.187.225.7", 1080), hostParse) == Ok(Ip(V4(Ipv4Addr(3, 187, 225, 7))))
    ensures ParseHostTransparent(HostUrl("a.co", 1080), hostParse) == Ok(DomainName("a.co"))
    ensures ParseHostTransparent(HostUrl("[::1]", 1080), hostParse) == Ok(Ip(V6(Ipv6Localhost)))
  {
  }

  /** `a%25b` is refused by `Host::parse` (its decoded form holds `%`). */
  lemma HostRefusedIsInvalidEncoding(hostParse: HostParser)
    requires hostParse("a%25b").None?
    ensures ParseHostTransparent(HostUrl("a%25b", 34187), hostParse) == Err(InvalidEncoding)
  {
  }

  lemma MapHostNameCases()
    ensures MapHostName(Ipv4(Ipv4Addr(3, 187, 225, 7))) == Ip(V4(Ipv4Addr(3, 187, 225, 7)))
    ensures MapHostName(Domain("a.co")) == DomainName("a.co")
    ensures MapHostName(Ipv6(Ipv6Localhost)) == Ip(V6(Ipv6Localhost))
  {
  }
}

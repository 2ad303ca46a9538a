/**
 * The NUS download helpers of OnlineSystemUpdater: the URLs of a title's
 * ticket, TMD and contents, and the size checks that split a response into
 * the structure and the certificate chain that follows it.
 */
module Download {
  import opened Types
  import opened Format

  function TitleDir(prefix: string, id: u64): (s: string)
    ensures |s| == |prefix| + 17
  {
    prefix + "/" + Hex16(id)
  }

  /** DownloadTicket's URL: "<prefix>/%016x/cetk". */
  function TicketUrl(prefix: string, id: u64): (url: string)
  {
    TitleDir(prefix, id) + "/cetk"
  }

  /** DownloadTMD's URL: "<prefix>/%016x/tmd" for version 0 (the latest),
      "<prefix>/%016x/tmd.%u" otherwise. */
  function TmdUrl(prefix: string, title: TitleInfo): (url: string)
  {
    if title.version == 0 then TitleDir(prefix, title.id) + "/tmd"
    else TitleDir(prefix, title.id) + "/tmd." + Decimal(title.version)
  }

  /** DownloadContent's URL: "<prefix>/%016x/%08x". */
  function ContentUrl(prefix: string, id: u64, cid: u32): (url: string)
  {
    TitleDir(prefix, id) + "/" + Hex8(cid)
  }

  /** The title id and the content id can be read back from a content URL. */
  lemma ContentUrlDecodes(prefix: string, id: u64, cid: u32)
    ensures var url := ContentUrl(prefix, id, cid);
            && |url| == |prefix| + 26
            && url[..|prefix|] == prefix
            && IsHexString(url[|prefix| + 1..|prefix| + 17])
            && ParseHex(url[|prefix| + 1..|prefix| + 17]) == id
            && IsHexString(url[|prefix| + 18..])
            && ParseHex(url[|prefix| + 18..]) == cid
  {
    var url := ContentUrl(prefix, id, cid);
    assert url[|prefix| + 1..|prefix| + 17] == Hex16(id);
    assert url[|prefix| + 18..] == Hex8(cid);
  }

  /** Two contents of one title are fetched from the same URL only if they are the same content. */
  lemma ContentUrlInjective(prefix: string, id: u64, c1: u32, c2: u32)
    requires ContentUrl(prefix, id, c1) == ContentUrl(prefix, id, c2)
    ensures c1 == c2
  {
    ContentUrlDecodes(prefix, id, c1);
    ContentUrlDecodes(prefix, id, c2);
  }

  /** The TMD URL names the title and, past "tmd.", the requested version. */
  lemma TmdUrlDecodes(prefix: string, title: TitleInfo)
    ensures var url := TmdUrl(prefix, title);
            && url[..|prefix|] == prefix
            && ParseHex(url[|prefix| + 1..|prefix| + 17]) == title.id
            && url[|prefix| + 17..|prefix| + 21] == "/tmd"
            && (title.version == 0 <==> |url| == |prefix| + 21)
            && (title.version != 0 ==>
                  && url[|prefix| + 21] == '.'
                  && IsDecimalString(url[|prefix| + 22..])
                  && ParseDecimal(url[|prefix| + 22..]) == title.version)
  {
    var url := TmdUrl(prefix, title);
    assert url[|prefix| + 1..|prefix| + 17] == Hex16(title.id);
    if title.version != 0 {
      assert url[|prefix| + 22..] == Decimal(title.version);
      DecimalRoundTrip(title.version);
    }
  }

  /** The ticket URL is the prefix, the 16-digit hex title id and "/cetk". */
  lemma TicketUrlDecodes(prefix: string, id: u64)
    ensures var url := TicketUrl(prefix, id);
            && |url| == |prefix| + 22
            && url[..|prefix|] == prefix
            && url[|prefix|] == '/'
            && IsHexString(url[|prefix| + 1..|prefix| + 17])
            && ParseHex(url[|prefix| + 1..|prefix| + 17]) == id
            && url[|prefix| + 17..] == "/cetk"
  {
    var url := TicketUrl(prefix, id);
    assert url[|prefix| + 1..|prefix| + 17] == Hex16(id);
  }

  /** Ticket, TMD and content requests of one title never share a URL. */
  lemma UrlsDistinct(prefix: string, title: TitleInfo, cid: u32)
    ensures TicketUrl(prefix, title.id) != TmdUrl(prefix, title)
    ensures TicketUrl(prefix, title.id) != ContentUrl(prefix, title.id, cid)
    ensures TmdUrl(prefix, title) != ContentUrl(prefix, title.id, cid)
  {
    var n := |prefix|;
    TicketUrlDecodes(prefix, title.id);
    TmdUrlDecodes(prefix, title);
    ContentUrlDecodes(prefix, title.id, cid);
    var t := TicketUrl(prefix, title.id);
    var m := TmdUrl(prefix, title);
    var c := ContentUrl(prefix, title.id, cid);
    assert t[n + 18] == 'c' && m[n + 18] == 't';
    assert c[n + 18..][0] == c[n + 18] && IsHexChar(c[n + 18]);
  }

  /** DownloadTicket's split of a response: a pair of empty vectors when the
      request failed or the response is too small to hold a ticket and a
      certificate chain, else the ticket bytes and the rest. */
  function SplitTicket(response: Option<bytes>): (r: (bytes, bytes))
    ensures (r.0 != [] && r.1 != []) <==> (response.Some? && |response.value| > TICKET_SIZE)
    ensures r.0 != [] && r.1 != [] ==> |r.0| == TICKET_SIZE && r.0 + r.1 == response.value
    ensures r.0 == [] <==> r.1 == []
  {
    if response.None? || |response.value| <= TICKET_SIZE then ([], [])
    else (response.value[..TICKET_SIZE], response.value[TICKET_SIZE..])
  }

  /** Common::swap16 of the two bytes at an offset: a big-endian 16-bit read. */
  function Be16(b: bytes, offset: nat): (v: nat)
    requires offset + 2 <= |b|
    ensures v < 0x1_0000
  {
    b[offset] as int * 0x100 + b[offset + 1] as int
  }

  /** The length the header claims for the TMD: the header and num_contents entries. */
  function ClaimedTmdSize(response: bytes): (n: nat)
    requires |response| > TMD_HEADER_SIZE
    ensures n >= TMD_HEADER_SIZE
  {
    TMD_HEADER_SIZE + CONTENT_SIZE * Be16(response, NUM_CONTENTS_OFFSET)
  }

  /** DownloadTMD's split of a response: `None` (an invalid TMD reader) when
      the request failed, the response does not exceed the header, or it does
      not exceed the TMD size its header claims; else the TMD bytes and the
      certificate chain after them. */
  function SplitTmd(response: Option<bytes>): (r: Option<(bytes, bytes)>)
    ensures r.Some? <==> response.Some? && |response.value| > TMD_HEADER_SIZE
                         && |response.value| > ClaimedTmdSize(response.value)
    ensures r.Some? ==> && |r.value.0| == ClaimedTmdSize(response.value)
                        && r.value.0 + r.value.1 == response.value
                        && r.value.1 != []
  {
    if response.None? then None
    else if |response.value| <= TMD_HEADER_SIZE then None
    else
      var size := ClaimedTmdSize(response.value);
      if |response.value| <= size then None
      else Some((response.value[..size], response.value[size..]))
  }

  /** The TMD part of a successful split is exactly as long as its own header says. */
  lemma SplitTmdSelfConsistent(response: Option<bytes>)
    requires SplitTmd(response).Some?
    ensures var tmd := SplitTmd(response).value.0;
            |tmd| == TMD_HEADER_SIZE + CONTENT_SIZE * Be16(tmd, NUM_CONTENTS_OFFSET)
  {
    var tmd := SplitTmd(response).value.0;
    assert tmd[NUM_CONTENTS_OFFSET] == response.value[NUM_CONTENTS_OFFSET];
    assert tmd[NUM_CONTENTS_OFFSET + 1] == response.value[NUM_CONTENTS_OFFSET + 1];
  }
}

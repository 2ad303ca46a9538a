/**
 * The update-catalog client of OnlineSystemUpdater: device identity and
 * region, and the reading of a GetSystemUpdate SOAP response into the
 * content prefix URL and the ordered title list.
 */
module Catalog {
  import opened Types
  import opened Format

  /** A TitleVersion node of the response as the XML library yields it:
      the TitleId text and the Version text read with as_uint(). */
  datatype TitleNode = TitleNode(titleId: string, version: u32)

  /** The GetSystemUpdateResponse node: ErrorCode read with as_int(),
      ContentPrefixURL text and the TitleVersion children in document order. */
  datatype ResponseNode = ResponseNode(errorCode: int, contentPrefixUrl: string, titles: seq<TitleNode>)

  /** OnlineSystemUpdater::Response. */
  datatype Response = Response(contentPrefixUrl: string, titles: seq<TitleInfo>)

  const EmptyResponse := Response("", [])

  const HTTPS := "https://"
  const HTTP := "http://"

  /** ReplaceAll(s, "https://", "http://"): left to right, the search resuming
      after each inserted replacement. */
  function DowngradeScheme(s: string): (r: string)
    ensures |r| <= |s|
    ensures r == [] <==> s == []
  {
    if |s| >= |HTTPS| && s[..|HTTPS|] == HTTPS then HTTP + DowngradeScheme(s[|HTTPS|..])
    else if s == [] then []
    else [s[0]] + DowngradeScheme(s[1..])
  }

  predicate OccursAt(s: string, pat: string, i: nat) {
    i + |pat| <= |s| && s[i..i + |pat|] == pat
  }

  /** After the rewrite no secure scheme is left anywhere in the URL. */
  lemma {:induction false} DowngradeRemovesHttps(s: string)
    ensures NoHttps(DowngradeScheme(s))
  {
    if |s| >= |HTTPS| && s[..|HTTPS|] == HTTPS {
      DowngradeRemovesHttps(s[|HTTPS|..]);
      NoHttpsAfterHttp(DowngradeScheme(s[|HTTPS|..]));
    } else if s != [] {
      DowngradeRemovesHttps(s[1..]);
      NoHttpsAfterCopy(s, DowngradeScheme(s[1..]));
      assert DowngradeScheme(s) == [s[0]] + DowngradeScheme(s[1..]);
    }
  }

  predicate NoHttps(r: string) {
    forall i :: 0 <= i <= |r| ==> !OccursAt(r, HTTPS, i)
  }

  /** A rewritten scheme in front of a secure-free rest leaves it secure-free. */
  lemma NoHttpsAfterHttp(t: string)
    requires NoHttps(t)
    ensures NoHttps(HTTP + t)
  {
    var r := HTTP + t;
    assert |HTTP| == 7 && |HTTPS| == 8;
    forall i | 0 <= i <= |r| ensures !OccursAt(r, HTTPS, i) {
      if i == 0 {
        assert r[4] == ':';
      } else if i < |HTTP| {
        assert r[i] != 'h';
      } else if i + |HTTPS| <= |r| {
        assert r[i..i + |HTTPS|] == t[i - |HTTP|..i - |HTTP| + |HTTPS|];
        assert !OccursAt(t, HTTPS, i - |HTTP|);
      }
    }
  }

  /** A character copied in front of the secure-free rewrite of the rest,
      when the input did not start with the secure scheme. */
  lemma NoHttpsAfterCopy(s: string, t: string)
    requires s != [] && !(|s| >= |HTTPS| && s[..|HTTPS|] == HTTPS)
    requires t == DowngradeScheme(s[1..]) && NoHttps(t)
    ensures NoHttps([s[0]] + t)
  {
    var r := [s[0]] + t;
    assert |HTTPS| == 8;
    forall i | 0 <= i <= |r| ensures !OccursAt(r, HTTPS, i) {
      if i == 0 {
        DowngradeTail(s[1..], |HTTPS| - 1);
        if |s| >= |HTTPS| {
          assert s[..|HTTPS|] == [s[0]] + s[1..][..|HTTPS| - 1];
        }
        if |r| >= |HTTPS| {
          assert r[..|HTTPS|] == [s[0]] + t[..|HTTPS| - 1];
          assert forall k :: 0 <= k < |HTTPS| - 1 ==> t[k] == r[..|HTTPS|][k + 1];
          assert forall k :: 1 <= k < |HTTPS| ==> HTTPS[k] != 'h';
        }
      } else if i + |HTTPS| <= |r| {
        assert r[i..i + |HTTPS|] == t[i - 1..i - 1 + |HTTPS|];
        assert !OccursAt(t, HTTPS, i - 1);
      }
    }
  }

  /** A URL without the secure scheme is left exactly as it was. */
  lemma {:induction false} DowngradeKeepsPlain(s: string)
    requires NoHttps(s)
    ensures DowngradeScheme(s) == s
  {
    if s != [] {
      assert !OccursAt(s, HTTPS, 0);
      forall i | 0 <= i <= |s[1..]| ensures !OccursAt(s[1..], HTTPS, i) {
        assert !OccursAt(s, HTTPS, i + 1);
        if i + |HTTPS| <= |s[1..]| {
          assert s[1..][i..i + |HTTPS|] == s[i + 1..i + 1 + |HTTPS|];
        }
      }
      DowngradeKeepsPlain(s[1..]);
      assert s == [s[0]] + s[1..];
    }
  }

  /** Each secure scheme becomes the plain one, and the rest of the URL is
      rewritten on its own. */
  lemma DowngradeSecurePrefix(t: string)
    ensures DowngradeScheme(HTTPS + t) == HTTP + DowngradeScheme(t)
  {
    var s := HTTPS + t;
    assert s[..|HTTPS|] == HTTPS && s[|HTTPS|..] == t;
  }

  /** Text that does not start with the secure scheme keeps its first
      character, and the rest is rewritten on its own. */
  lemma DowngradeCopies(c: char, t: string)
    requires !(|[c] + t| >= |HTTPS| && ([c] + t)[..|HTTPS|] == HTTPS)
    ensures DowngradeScheme([c] + t) == [c] + DowngradeScheme(t)
  {
    assert ([c] + t)[1..] == t;
  }

  /** ReplaceAll's find-and-resume rule: text before the first secure scheme
      is kept, that scheme becomes the plain one, and the search resumes
      right after it. */
  lemma DowngradeFirst(a: string, b: string)
    requires forall i :: 0 <= i < |a| ==> !OccursAt(a + HTTPS + b, HTTPS, i)
    ensures DowngradeScheme(a + HTTPS + b) == a + HTTP + DowngradeScheme(b)
  {
    assert a + HTTPS + b == a + (HTTPS + b);
    DowngradeBefore(a, b);
    assert a + (HTTP + DowngradeScheme(b)) == a + HTTP + DowngradeScheme(b);
  }

  /** DowngradeFirst with the concatenations grouped to the right. */
  lemma {:induction false} DowngradeBefore(a: string, b: string)
    requires forall i :: 0 <= i < |a| ==> !OccursAt(a + (HTTPS + b), HTTPS, i)
    ensures DowngradeScheme(a + (HTTPS + b)) == a + (HTTP + DowngradeScheme(b))
    decreases |a|
  {
    if a == [] {
      assert a + (HTTPS + b) == HTTPS + b;
      DowngradeSecurePrefix(b);
    } else {
      NoHttpsBeforeShift(a, HTTPS + b);
      DowngradeBefore(a[1..], b);
      DowngradeCons(a, HTTPS + b, HTTP + DowngradeScheme(b));
    }
  }

  /** A first character that does not start the secure scheme is copied in
      front of the rewrite of the rest. */
  lemma DowngradeCons(a: string, u: string, m: string)
    requires a != [] && !OccursAt(a + u, HTTPS, 0)
    requires DowngradeScheme(a[1..] + u) == a[1..] + m
    ensures DowngradeScheme(a + u) == a + m
  {
    ConsSplit(a, u);
    ConsSplit(a, m);
    DowngradeCopies(a[0], a[1..] + u);
  }

  lemma ConsSplit(a: string, m: string)
    requires a != []
    ensures [a[0]] + (a[1..] + m) == a + m
  {
    assert a == [a[0]] + a[1..];
  }

  /** Dropping the first character of `a` keeps the secure scheme away from
      every position before the end of `a`. */
  lemma NoHttpsBeforeShift(a: string, u: string)
    requires a != [] && forall i :: 0 <= i < |a| ==> !OccursAt(a + u, HTTPS, i)
    ensures !OccursAt(a + u, HTTPS, 0)
    ensures forall i :: 0 <= i < |a[1..]| ==> !OccursAt(a[1..] + u, HTTPS, i)
  {
    var s := a + u;
    var rest := a[1..] + u;
    assert !OccursAt(s, HTTPS, 0);
    forall i | 0 <= i < |a[1..]| ensures !OccursAt(rest, HTTPS, i) {
      assert !OccursAt(s, HTTPS, i + 1);
      if i + |HTTPS| <= |rest| {
        assert rest[i..i + |HTTPS|] == s[i + 1..i + 1 + |HTTPS|];
      }
    }
  }

  /** A prefix of the rewrite that contains no 'h' was copied unchanged from the input. */
  lemma {:induction false} DowngradeTail(s: string, n: nat)
    ensures var t := DowngradeScheme(s);
            |t| >= n && (forall k :: 0 <= k < n ==> t[k] != 'h') ==> |s| >= n && s[..n] == t[..n]
  {
    var t := DowngradeScheme(s);
    if n > 0 && |s| >= |HTTPS| && s[..|HTTPS|] == HTTPS {
      assert t[0] == 'h';
    } else if n > 0 && s != [] {
      var t' := DowngradeScheme(s[1..]);
      assert t == [s[0]] + t';
      DowngradeTail(s[1..], n - 1);
      if |t| >= n && (forall k :: 0 <= k < n ==> t[k] != 'h') {
        assert forall k :: 0 <= k < n - 1 ==> t'[k] == t[k + 1];
        assert s[..n] == [s[0]] + s[1..][..n - 1];
      }
    }
  }

  /** std::stoull(text, nullptr, 16) on a text it accepts: hex digits whose value fits 64 bits. */
  predicate ParsableTitleId(text: string) {
    text != [] && IsHexString(text) && ParseHex(text) < 0x1_0000_0000_0000_0000
  }

  predicate ParsableTitles(nodes: seq<TitleNode>) {
    forall i :: 0 <= i < |nodes| ==> ParsableTitleId(nodes[i].titleId)
  }

  function TitleOfNode(n: TitleNode): (t: TitleInfo)
    requires ParsableTitleId(n.titleId)
  {
    TitleInfo(ParseHex(n.titleId), n.version % 0x1_0000)
  }

  /** OnlineSystemUpdater::ParseTitlesResponse. `None` stands for a document
      that did not parse or has no GetSystemUpdateResponse node. */
  function ParseTitlesResponse(node: Option<ResponseNode>): (r: Response)
    requires node.Some? && node.value.errorCode == 0 && DowngradeScheme(node.value.contentPrefixUrl) != []
             ==> ParsableTitles(node.value.titles)
  {
    if node.None? then EmptyResponse
    else if node.value.errorCode != 0 then EmptyResponse
    else
      var prefix := DowngradeScheme(node.value.contentPrefixUrl);
      if prefix == [] then EmptyResponse
      else Response(prefix, seq(|node.value.titles|, i requires 0 <= i < |node.value.titles| =>
                                  TitleOfNode(node.value.titles[i])))
  }

  /** The outcome of parsing: the failure cases give the empty response, and a
      response with a zero error code and a non-empty prefix lists one title per
      node, in document order, with the id read as hex and the version truncated
      to 16 bits; the prefix never keeps a secure scheme. */
  lemma ParseTitlesResponseMeaning(node: Option<ResponseNode>)
    requires node.Some? && node.value.errorCode == 0 && DowngradeScheme(node.value.contentPrefixUrl) != []
             ==> ParsableTitles(node.value.titles)
    ensures node.None? ==> ParseTitlesResponse(node) == EmptyResponse
    ensures node.Some? && node.value.errorCode != 0 ==> ParseTitlesResponse(node) == EmptyResponse
    ensures node.Some? && node.value.contentPrefixUrl == [] ==> ParseTitlesResponse(node) == EmptyResponse
    ensures ParseTitlesResponse(node).titles != [] ==>
              && node.Some? && node.value.errorCode == 0
              && ParseTitlesResponse(node).contentPrefixUrl != []
    ensures node.Some? && node.value.errorCode == 0 && node.value.contentPrefixUrl != [] ==>
              var r := ParseTitlesResponse(node);
              && r.contentPrefixUrl == DowngradeScheme(node.value.contentPrefixUrl)
              && |r.titles| == |node.value.titles|
              && forall i :: 0 <= i < |r.titles| ==>
                   && r.titles[i].id == ParseHex(node.value.titles[i].titleId)
                   && r.titles[i].version as int == node.value.titles[i].version % 0x1_0000
    ensures forall i :: 0 <= i <= |ParseTitlesResponse(node).contentPrefixUrl| ==>
              !OccursAt(ParseTitlesResponse(node).contentPrefixUrl, HTTPS, i)
  {
    if node.Some? {
      DowngradeRemovesHttps(node.value.contentPrefixUrl);
    }
  }

  /** SystemUpdater::GetDeviceRegion: the region of the installed System Menu
      through the fixed table; no System Menu gives the empty string. */
  function GetDeviceRegion(systemMenu: Option<Tmd>): (r: string)
    ensures systemMenu.None? <==> r == ""
    ensures systemMenu.Some? ==> r in {"JPN", "USA", "EUR", "KOR"}
    ensures systemMenu.Some? && systemMenu.value.region == UnknownRegion ==> r == "EUR"
  {
    if systemMenu.None? then ""
    else match systemMenu.value.region
      case NtscJ => "JPN"
      case NtscU => "USA"
      case Pal => "EUR"
      case NtscK => "KOR"
      case UnknownRegion => "EUR"
  }

  /** Distinct known regions map to distinct codes; only Pal and the unknown region share one. */
  lemma RegionTableInjective(a: Tmd, b: Tmd)
    requires a.region != b.region
    requires {a.region, b.region} != {Pal, UnknownRegion}
    ensures GetDeviceRegion(Some(a)) != GetDeviceRegion(Some(b))
  {
  }

  /** SystemUpdater::GetDeviceId: the decimal rendering of (1 << 32) | id, or
      "" when the store cannot report a device id. */
  function GetDeviceId(storeDeviceId: Option<u32>): (r: string)
    ensures storeDeviceId.None? <==> r == ""
    ensures storeDeviceId.Some? ==>
              && |r| == 10 && IsDecimalString(r)
              && ParseDecimal(r) == 0x1_0000_0000 + storeDeviceId.value
  {
    if storeDeviceId.None? then ""
    else
      var v := 0x1_0000_0000 + storeDeviceId.value;
      DecimalRoundTrip(v);
      assert Pow10(10) == 10_000_000_000 && Pow10(9) == 1_000_000_000 by {
        assert Pow10(3) == 1000;
        assert Pow10(6) == 1000_000;
      }
      DecimalLength(v, 10);
      Decimal(v)
  }

  /** GetSystemTitles' region choice: the requested region unless it is empty. */
  function RequestRegion(requested: string, systemMenu: Option<Tmd>): (r: string)
    ensures requested != [] ==> r == requested
    ensures r == [] <==> requested == [] && systemMenu.None?
    ensures r == requested || r in {"JPN", "USA", "EUR", "KOR"}
  {
    if requested == [] then GetDeviceRegion(systemMenu) else requested
  }
}

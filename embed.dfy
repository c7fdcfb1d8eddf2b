/** The embed script: reading a div's data attributes, building the iframe
    for a conversation (or a site page), hex-encoding the return URL used for
    the cookie redirect, and filling every empty `polis` div once.

    The page address (`window.location + ""`) and `encodeURIComponent` come
    from the browser; they are parameters here (`location`, `enc`). */
module Embed {
  import opened Common

  /** JavaScript truthiness of an attribute value: `getAttribute` gives null
      for a missing attribute, and the empty string is falsy too. */
  predicate Truthy(a: Option<string>)
    ensures a.None? ==> !Truthy(a)
    ensures a == Some("") ==> !Truthy(a)
    ensures a.Some? && a.value != "" ==> Truthy(a)
  {
    a.Some? && a.value != ""
  }

  /** `a || fallback` for an attribute value. */
  function OrElse(a: Option<string>, fallback: string): (r: string)
    ensures Truthy(a) ==> r == a.value
    ensures !Truthy(a) ==> r == fallback
  {
    if Truthy(a) then a.value else fallback
  }

  // ---------------------------------------------------------------------------
  // getConfig

  /** The record `getConfig` builds: one field per data attribute. */
  datatype Config = Config(
    conversationId: Option<string>,
    siteId: Option<string>,
    pageId: Option<string>,
    parentUrl: Option<string>,
    border: Option<string>,
    borderRadius: Option<string>,
    height: Option<string>,
    demo: Option<string>)

  /** `getAttribute`: the attribute's value, or None (null) when it is absent. */
  function GetAttribute(attrs: map<string, string>, name: string): (r: Option<string>)
    ensures r.Some? <==> name in attrs
    ensures r.Some? ==> r.value == attrs[name]
  {
    if name in attrs then Some(attrs[name]) else None
  }

  /** `getConfig`: each field holds its `data-` attribute, None when the div
      does not carry it. */
  function GetConfig(attrs: map<string, string>): (r: Config)
    ensures r.conversationId.Some? <==> "data-conversation_id" in attrs
    ensures r.conversationId.Some? ==> r.conversationId.value == attrs["data-conversation_id"]
    ensures r.siteId.Some? <==> "data-site_id" in attrs
    ensures r.siteId.Some? ==> r.siteId.value == attrs["data-site_id"]
    ensures r.pageId.Some? <==> "data-page_id" in attrs
    ensures r.pageId.Some? ==> r.pageId.value == attrs["data-page_id"]
    ensures r.parentUrl.Some? <==> "data-parent_url" in attrs
    ensures r.parentUrl.Some? ==> r.parentUrl.value == attrs["data-parent_url"]
    ensures r.border.Some? <==> "data-border" in attrs
    ensures r.border.Some? ==> r.border.value == attrs["data-border"]
    ensures r.borderRadius.Some? <==> "data-border_radius" in attrs
    ensures r.borderRadius.Some? ==> r.borderRadius.value == attrs["data-border_radius"]
    ensures r.height.Some? <==> "data-height" in attrs
    ensures r.height.Some? ==> r.height.value == attrs["data-height"]
    ensures r.demo.Some? <==> "data-demo" in attrs
    ensures r.demo.Some? ==> r.demo.value == attrs["data-demo"]
  {
    Config(
      GetAttribute(attrs, "data-conversation_id"),
      GetAttribute(attrs, "data-site_id"),
      GetAttribute(attrs, "data-page_id"),
      GetAttribute(attrs, "data-parent_url"),
      GetAttribute(attrs, "data-border"),
      GetAttribute(attrs, "data-border_radius"),
      GetAttribute(attrs, "data-height"),
      GetAttribute(attrs, "data-demo"))
  }

  // ---------------------------------------------------------------------------
  // createPolisIframe

  datatype EmbedError =
    | NeedPageId              // "need data-page_id when using data-site_id"
    | NeedConversationOrSite  // "need data-conversation_id or data-site_id"

  /** The iframe's `src`, `width`, `height`, and its style's `border` and
      `borderRadius`. The numeric default height 930 is held as the string the
      DOM reflects it as. */
  datatype Iframe = Iframe(src: string, width: string, height: string, border: string, borderRadius: string)

  const Origin: string := "https://preprod.pol.is/"
  const FrameWidth: string := "100%"
  const DefaultHeight: string := "930"
  const DefaultBorder: string := "1px solid #ccc"
  const DefaultBorderRadius: string := "4px"

  /** `Array.prototype.join`. */
  function Join(parts: seq<string>, sep: string): (r: string)
    ensures parts == [] ==> r == ""
    ensures |parts| == 1 ==> r == parts[0]
    ensures |parts| > 1 ==> parts[0] + sep <= r
  {
    if parts == [] then ""
    else if |parts| == 1 then parts[0]
    else parts[0] + sep + Join(parts[1..], sep)
  }

  /** The path segments: "demo" when `demo` is set, then the conversation id,
      or else the site id followed by the page id. */
  function PathSegments(o: Config): (r: Result<seq<string>, EmbedError>)
    ensures r.Success? <==> Truthy(o.conversationId) || (Truthy(o.siteId) && Truthy(o.pageId))
    ensures r == Failure(NeedPageId) <==>
      !Truthy(o.conversationId) && Truthy(o.siteId) && !Truthy(o.pageId)
    ensures r.Success? ==>
      && |r.value| == (if Truthy(o.demo) then 1 else 0) + (if Truthy(o.conversationId) then 1 else 2)
      && (Truthy(o.demo) ==> r.value[0] == "demo")
      && r.value[|r.value| - 1] == (if Truthy(o.conversationId) then o.conversationId.value else o.pageId.value)
  {
    var prefix := if Truthy(o.demo) then ["demo"] else [];
    if Truthy(o.conversationId) then Success(prefix + [o.conversationId.value])
    else if Truthy(o.siteId) then
      if !Truthy(o.pageId) then Failure(NeedPageId)
      else Success(prefix + [o.siteId.value, o.pageId.value])
    else Failure(NeedConversationOrSite)
  }

  /** The iframe `createPolisIframe` appends for configuration `o`, or the
      error it alerts instead. */
  function IframeFor(o: Config, location: string, enc: string -> string): (r: Result<Iframe, EmbedError>)
    ensures r.Success? <==> PathSegments(o).Success?
    ensures r.Failure? ==> r.error == PathSegments(o).error
  {
    match PathSegments(o)
    case Failure(e) => Failure(e)
    case Success(path) =>
      var parentUrl := OrElse(o.parentUrl, location);
      var query := if parentUrl == "" then "" else "?parent_url=" + enc(parentUrl);
      Success(Iframe(
        Origin + Join(path, "/") + query,
        FrameWidth,
        OrElse(o.height, DefaultHeight),
        OrElse(o.border, DefaultBorder),
        OrElse(o.borderRadius, DefaultBorderRadius)))
  }

  /** The error cases: a site id without a page id, or neither a conversation
      id nor a site id; a conversation id takes precedence over a site id. */
  lemma IframeForErrors(o: Config, location: string, enc: string -> string)
    ensures IframeFor(o, location, enc) == Failure(NeedPageId) <==>
      !Truthy(o.conversationId) && Truthy(o.siteId) && !Truthy(o.pageId)
    ensures IframeFor(o, location, enc) == Failure(NeedConversationOrSite) <==>
      !Truthy(o.conversationId) && !Truthy(o.siteId)
    ensures IframeFor(o, location, enc).Success? <==>
      Truthy(o.conversationId) || (Truthy(o.siteId) && Truthy(o.pageId))
  {
  }

  lemma JoinPrefix(head: string, rest: seq<string>)
    requires rest != []
    ensures Join([head] + rest, "/") == head + "/" + Join(rest, "/")
  {
    assert ([head] + rest)[1..] == rest;
  }

  /** The `src` path: "demo/" first when `demo` is set, then the conversation
      id when there is one, otherwise the site id and the page id. */
  lemma IframeForPath(o: Config, location: string, enc: string -> string)
    requires IframeFor(o, location, enc).Success?
    ensures var src := IframeFor(o, location, enc).value.src;
      var id := if Truthy(o.conversationId) then o.conversationId.value
                else o.siteId.value + "/" + o.pageId.value;
      var path := if Truthy(o.demo) then "demo/" + id else id;
      Origin + path <= src
  {
    var id := if Truthy(o.conversationId) then o.conversationId.value
              else o.siteId.value + "/" + o.pageId.value;
    var path := if Truthy(o.demo) then "demo/" + id else id;
    var idSegments := if Truthy(o.conversationId) then [o.conversationId.value]
                      else [o.siteId.value, o.pageId.value];
    var segments := PathSegments(o).value;
    var parentUrl := OrElse(o.parentUrl, location);
    var query := if parentUrl == "" then "" else "?parent_url=" + enc(parentUrl);
    assert IframeFor(o, location, enc).value.src == Origin + Join(segments, "/") + query;
    assert Join(idSegments, "/") == id by {
      if !Truthy(o.conversationId) {
        JoinPrefix(o.siteId.value, [o.pageId.value]);
      }
    }
    assert Join(segments, "/") == path by {
      if Truthy(o.demo) {
        assert segments == ["demo"] + idSegments;
        JoinPrefix("demo", idSegments);
      } else {
        assert segments == idSegments;
      }
    }
    PrefixOfConcat(Origin + path, query);
  }

  lemma PrefixOfConcat(a: string, b: string)
    ensures a <= a + b
  {
  }

  /** The query string: `?parent_url=` and the encoded parent URL exactly when the
      parent URL, defaulted to the page address, is not empty. */
  lemma IframeForQuery(o: Config, location: string, enc: string -> string)
    requires IframeFor(o, location, enc).Success?
    ensures var src := IframeFor(o, location, enc).value.src;
      var parentUrl := if Truthy(o.parentUrl) then o.parentUrl.value else location;
      var base := Origin + Join(PathSegments(o).value, "/");
      && (parentUrl == "" ==> src == base)
      && (parentUrl != "" ==> src == base + "?parent_url=" + enc(parentUrl))
  {
  }

  /** The iframe's size and style: the width is always "100%"; the height,
      border and radius fall back to 930, "1px solid #ccc" and "4px". */
  lemma IframeForDefaults(o: Config, location: string, enc: string -> string)
    requires IframeFor(o, location, enc).Success?
    ensures var f := IframeFor(o, location, enc).value;
      && f.width == "100%"
      && f.height == (if Truthy(o.height) then o.height.value else "930")
      && f.border == (if Truthy(o.border) then o.border.value else "1px solid #ccc")
      && f.borderRadius == (if Truthy(o.borderRadius) then o.borderRadius.value else "4px")
  {
  }

  /** A child element of a div: an iframe this script made, or anything else. */
  datatype Element = IframeElement(frame: Iframe) | OtherElement

  class Div {
    const attrs: map<string, string>
    var children: seq<Element>

    constructor (attrs: map<string, string>, children: seq<Element>)
      ensures this.attrs == attrs && this.children == children
    {
      this.attrs := attrs;
      this.children := children;
    }
  }

  /** The iframe of a configuration whose path can be built, given its `src`. */
  lemma IframeForSuccess(o: Config, location: string, enc: string -> string, src: string)
    requires PathSegments(o).Success?
    requires var parentUrl := OrElse(o.parentUrl, location);
      src == Origin + Join(PathSegments(o).value, "/") +
             (if parentUrl == "" then "" else "?parent_url=" + enc(parentUrl))
    ensures IframeFor(o, location, enc) == Success(Iframe(src, FrameWidth, OrElse(o.height, DefaultHeight),
      OrElse(o.border, DefaultBorder), OrElse(o.borderRadius, DefaultBorderRadius)))
  {
  }

  /** `createPolisIframe`: builds the path and the query parameters by pushing
      onto two arrays, then appends the iframe to `parent`; on an error (an
      alert in the browser) nothing is appended. */
  method CreatePolisIframe(parent: Div, o: Config, location: string, enc: string -> string)
    returns (r: Result<Iframe, EmbedError>)
    modifies parent
    ensures r == IframeFor(o, location, enc)
    ensures r.Success? ==> parent.children == old(parent.children) + [IframeElement(r.value)]
    ensures r.Failure? ==> parent.children == old(parent.children)
  {
    var path: seq<string> := [];
    if Truthy(o.demo) {
      path := path + ["demo"];
    }
    var parentUrl := OrElse(o.parentUrl, location);
    if Truthy(o.conversationId) {
      path := path + [o.conversationId.value];
    } else if Truthy(o.siteId) {
      path := path + [o.siteId.value];
      if !Truthy(o.pageId) {
        return Failure(NeedPageId);
      }
      path := path + [o.pageId.value];
    } else {
      return Failure(NeedConversationOrSite);
    }
    var src := Origin + Join(path, "/");
    var paramStrings: seq<string> := [];
    if parentUrl != "" {
      paramStrings := paramStrings + ["parent_url=" + enc(parentUrl)];
    }
    if |paramStrings| > 0 {
      src := src + "?" + Join(paramStrings, "&");
      assert "?" + Join(paramStrings, "&") == "?parent_url=" + enc(parentUrl);
    }
    assert path == PathSegments(o).value;
    IframeForSuccess(o, location, enc, src);
    var frame := Iframe(src, FrameWidth, OrElse(o.height, DefaultHeight),
                        OrElse(o.border, DefaultBorder), OrElse(o.borderRadius, DefaultBorderRadius));
    parent.children := parent.children + [IframeElement(frame)];
    return Success(frame);
  }

  // ---------------------------------------------------------------------------
  // The populate loop

  /** What one pass of the script leaves as a div's children: a div that
      already has children is left alone; an empty one gets the iframe for its
      attributes, or stays empty on an error. */
  function PopulateOne(children: seq<Element>, attrs: map<string, string>, location: string,
                       enc: string -> string): (r: seq<Element>)
    ensures children != [] ==> r == children
    ensures children == [] ==> (r == [] || |r| == 1)
  {
    if children != [] then children
    else match IframeFor(GetConfig(attrs), location, enc)
      case Success(f) => [IframeElement(f)]
      case Failure(_) => []
  }

  /** Including the script again changes nothing: a second pass over the divs
      the first pass left behind leaves them as they are. */
  lemma PopulateOneIdempotent(children: seq<Element>, attrs: map<string, string>, location: string,
                              enc: string -> string)
    ensures var once := PopulateOne(children, attrs, location, enc);
      PopulateOne(once, attrs, location, enc) == once
  {
  }

  /** The loop over `document.getElementsByClassName("polis")` (distinct
      elements): every div with children is left unchanged, every empty one
      gets a `createPolisIframe` attempt. */
  method PopulateDivs(divs: seq<Div>, location: string, enc: string -> string)
    requires forall i, j | 0 <= i < j < |divs| :: divs[i] != divs[j]
    modifies set d | d in divs
    ensures forall i | 0 <= i < |divs| ::
      divs[i].children == PopulateOne(old(divs[i].children), divs[i].attrs, location, enc)
    ensures forall i | 0 <= i < |divs| && old(divs[i].children) != [] ::
      divs[i].children == old(divs[i].children)
  {
    var i := 0;
    while i < |divs|
      invariant 0 <= i <= |divs|
      invariant forall j | 0 <= j < i ::
        divs[j].children == PopulateOne(old(divs[j].children), divs[j].attrs, location, enc)
      invariant forall j | i <= j < |divs| :: divs[j].children == old(divs[j].children)
    {
      var d := divs[i];
      if |d.children| > 0 {
        // already populated
      } else {
        var config := GetConfig(d.attrs);
        var _ := CreatePolisIframe(d, config, location, enc);
      }
      i := i + 1;
    }
  }

  // ---------------------------------------------------------------------------
  // encodeReturnUrl

  /** A UTF-16 code unit, what `charCodeAt` returns. */
  newtype CodeUnit = x: int | 0 <= x < 0x1_0000

  const HexDigits: string := "0123456789abcdef"

  function HexChar(d: int): char
    requires 0 <= d < 16
  {
    HexDigits[d]
  }

  /** `n.toString(16)`: lowercase hexadecimal without leading zeros. */
  function ToHex(n: nat): (r: string)
    ensures |r| >= 1
    ensures |r| > 1 ==> r[0] != '0'
  {
    if n < 16 then [HexChar(n)] else ToHex(n / 16) + [HexChar(n % 16)]
  }

  /** `toString(16)` has exactly as many digits as the number needs. */
  lemma {:induction false} ToHexLength(n: nat)
    ensures var k := |ToHex(n)|; n < Pow16(k) && (k == 1 || Pow16(k - 1) <= n)
  {
    if n >= 16 {
      ToHexLength(n / 16);
    }
  }

  /** `s.slice(-4)`: the last four characters (all of `s` when shorter). */
  function SliceLast4(s: string): (r: string)
    ensures |r| == if |s| <= 4 then |s| else 4
    ensures forall i | 0 <= i < |r| :: r[i] == s[|s| - |r| + i]
  {
    if |s| <= 4 then s else s[|s| - 4..]
  }

  function Pow16(k: nat): (r: nat)
    ensures r >= 1
  {
    if k == 0 then 1 else 16 * Pow16(k - 1)
  }

  /** The last `k` hex digits of `n`, most significant first, zero-padded. */
  function FixedHex(n: nat, k: nat): (r: string)
    ensures |r| == k
  {
    if k == 0 then "" else FixedHex(n / 16, k - 1) + [HexChar(n % 16)]
  }

  function Zeros(k: nat): (r: string)
    ensures |r| == k && forall i | 0 <= i < k :: r[i] == '0'
  {
    if k == 0 then "" else Zeros(k - 1) + "0"
  }

  lemma {:induction false} FixedHexOfZero(k: nat)
    ensures FixedHex(0, k) == Zeros(k)
  {
    if k > 0 {
      FixedHexOfZero(k - 1);
    }
  }

  lemma ConcatAssoc(a: string, b: string, c: string)
    ensures (a + b) + c == a + (b + c)
  {
  }

  lemma MoreThanOneDigit(n: nat, k: nat)
    requires 16 <= n < Pow16(k)
    ensures k >= 2
  {
    assert Pow16(1) == 16;
  }

  lemma QuotientBelow(n: nat, p: nat)
    requires n < 16 * p
    ensures n / 16 < p
  {
  }

  /** A number below 16^k has at most k digits, and its k-digit form is its
      `toString(16)` with leading zeros. */
  lemma {:induction false} FixedHexIsPaddedHex(n: nat, k: nat)
    requires 1 <= k && n < Pow16(k)
    ensures |ToHex(n)| <= k
    ensures FixedHex(n, k) == Zeros(k - |ToHex(n)|) + ToHex(n)
  {
    var q, d := n / 16, n % 16;
    if n < 16 {
      assert q == 0 && d == n;
      FixedHexOfZero(k - 1);
    } else {
      MoreThanOneDigit(n, k);
      QuotientBelow(n, Pow16(k - 1));
      FixedHexIsPaddedHex(q, k - 1);
      var h := ToHex(q);
      assert ToHex(n) == h + [HexChar(d)];
      assert FixedHex(n, k) == FixedHex(q, k - 1) + [HexChar(d)];
      ConcatAssoc(Zeros(k - 1 - |h|), h, [HexChar(d)]);
    }
  }

  /** The four lowercase hex digits of a code unit, most significant first. */
  function Hex4(c: CodeUnit): (r: string)
    ensures |r| == 4
  {
    FixedHex(c as nat, 4)
  }

  /** `("000" + x).slice(-4)` is the code unit zero-padded to four digits. */
  lemma PaddedHex(c: CodeUnit)
    ensures SliceLast4("000" + ToHex(c as nat)) == Hex4(c)
  {
    assert Pow16(4) == 0x1_0000;
    FixedHexIsPaddedHex(c as nat, 4);
    var h := ToHex(c as nat);
    assert Zeros(3) == "000" by {
      assert Zeros(1) == "0";
      assert Zeros(2) == "00";
    }
    ThreeZerosSuffix(Zeros(3), h);
  }

  /** The last four characters of three zeros followed by one to four digits
      are the digits padded with zeros to four. */
  lemma ThreeZerosSuffix(z: string, h: string)
    requires z == Zeros(3) && 1 <= |h| <= 4
    ensures SliceLast4(z + h) == Zeros(4 - |h|) + h
  {
    var k := |h| - 1;
    assert SliceLast4(z + h) == (z + h)[k..];
    DropOfConcat(z, h, k);
    DropOfZeros(3, k);
  }

  lemma DropOfConcat(a: string, b: string, k: nat)
    requires k <= |a|
    ensures (a + b)[k..] == a[k..] + b
  {
  }

  lemma DropOfZeros(n: nat, k: nat)
    requires k <= n
    ensures Zeros(n)[k..] == Zeros(n - k)
  {
    assert forall i | 0 <= i < n - k :: Zeros(n)[k..][i] == Zeros(n)[k + i];
  }

  /** The reference encoding: four hex digits per code unit, in order. */
  function Encoded(s: seq<CodeUnit>): (r: string)
    ensures |r| == 4 * |s|
  {
    if s == [] then "" else Encoded(s[..|s| - 1]) + Hex4(s[|s| - 1])
  }

  lemma {:induction false} EncodedAt(s: seq<CodeUnit>, i: nat)
    requires i < |s|
    ensures Encoded(s)[4 * i..4 * i + 4] == Hex4(s[i])
  {
    var init := s[..|s| - 1];
    if i < |s| - 1 {
      EncodedAt(init, i);
      assert init[i] == s[i];
      assert Encoded(s)[4 * i..4 * i + 4] == Encoded(init)[4 * i..4 * i + 4];
    }
  }

  /** `encodeReturnUrl`: each code unit of the string becomes four lowercase hex
      digits, so the output is four times as long and chunk i encodes unit i. */
  method EncodeReturnUrl(str: seq<CodeUnit>) returns (result: string)
    ensures result == Encoded(str)
    ensures |result| == 4 * |str|
    ensures forall i | 0 <= i < |str| :: result[4 * i..4 * i + 4] == Hex4(str[i])
  {
    result := "";
    var i := 0;
    while i < |str|
      invariant 0 <= i <= |str|
      invariant result == Encoded(str[..i])
    {
      var x := ToHex(str[i] as nat);
      PaddedHex(str[i]);
      assert str[..i + 1][..i] == str[..i];
      assert Encoded(str[..i + 1]) == Encoded(str[..i]) + Hex4(str[i]);
      result := result + SliceLast4("000" + x);
      i := i + 1;
    }
    assert str[..i] == str;
    forall j | 0 <= j < |str| ensures result[4 * j..4 * j + 4] == Hex4(str[j]) {
      EncodedAt(str, j);
    }
  }

  /** The value of a lowercase hex digit. */
  function HexValue(ch: char): Option<nat>
  {
    if '0' <= ch <= '9' then Some(ch as int - '0' as int)
    else if 'a' <= ch <= 'f' then Some(ch as int - 'a' as int + 10)
    else None
  }

  /** The number a string of lowercase hex digits spells. */
  function FromHex(s: string): Option<nat>
  {
    if s == [] then Some(0)
    else match (FromHex(s[..|s| - 1]), HexValue(s[|s| - 1]))
      case (Some(v), Some(d)) => Some(16 * v + d)
      case _ => None
  }

  /** Reading `n.toString(16)` back gives `n`. */
  lemma {:induction false} FromHexToHex(n: nat)
    ensures FromHex(ToHex(n)) == Some(n)
  {
    var s := ToHex(n);
    if n < 16 {
      assert s[..|s| - 1] == [];
      HexValueOfHexChar(n);
    } else {
      assert s[..|s| - 1] == ToHex(n / 16);
      FromHexToHex(n / 16);
      HexValueOfHexChar(n % 16);
    }
  }

  lemma HexValueOfHexChar(d: int)
    requires 0 <= d < 16
    ensures HexValue(HexChar(d)) == Some(d)
  {
  }

  lemma {:induction false} FromFixedHex(n: nat, k: nat)
    requires n < Pow16(k)
    ensures FromHex(FixedHex(n, k)) == Some(n)
  {
    if k > 0 {
      var s := FixedHex(n, k);
      var q, d := n / 16, n % 16;
      assert s == FixedHex(q, k - 1) + [HexChar(d)];
      assert s[..|s| - 1] == FixedHex(q, k - 1);
      assert q < Pow16(k - 1);
      FromFixedHex(q, k - 1);
      HexValueOfHexChar(d);
      assert n == 16 * q + d;
    }
  }

  function DecodeChunk(s: string): (r: Option<CodeUnit>)
  {
    match FromHex(s)
    case Some(v) => if v < 0x1_0000 then Some(v as CodeUnit) else None
    case None => None
  }

  /** Splits a string into four-digit chunks and reads each back, failing on
      an incomplete chunk or a character that is not a lowercase hex digit. */
  function DecodeReturnUrl(s: string): Option<seq<CodeUnit>>
    decreases |s|
  {
    if s == [] then Some([])
    else if |s| < 4 then None
    else match DecodeChunk(s[|s| - 4..])
      case None => None
      case Some(c) =>
        match DecodeReturnUrl(s[..|s| - 4])
        case None => None
        case Some(init) => Some(init + [c])
  }

  lemma DecodeHex4(c: CodeUnit)
    ensures DecodeChunk(Hex4(c)) == Some(c)
  {
    assert Pow16(4) == 0x1_0000;
    FromFixedHex(c as nat, 4);
  }

  /** Reading the chunks back gives the original code units. */
  lemma {:induction false} DecodeEncoded(s: seq<CodeUnit>)
    ensures DecodeReturnUrl(Encoded(s)) == Some(s)
  {
    if s != [] {
      var e := Encoded(s);
      var init := s[..|s| - 1];
      assert e[|e| - 4..] == Hex4(s[|s| - 1]);
      assert e[..|e| - 4] == Encoded(init);
      DecodeHex4(s[|s| - 1]);
      DecodeEncoded(init);
      assert init + [s[|s| - 1]] == s;
    }
  }

  /** Distinct strings never share a return-URL encoding. */
  lemma EncodedInjective(a: seq<CodeUnit>, b: seq<CodeUnit>)
    requires Encoded(a) == Encoded(b)
    ensures a == b
  {
    DecodeEncoded(a);
    DecodeEncoded(b);
  }
}

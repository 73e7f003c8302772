/**
 * The preview link's href as the field's change handler rewrites it: split
 * on `/`, drop the last segment, append `encodeURIComponent` of the field
 * value, and join again.
 */
module PreviewLink {
  import opened Text
  import UriComponent
  import opened Wrappers

  /**
   * The new href for the preview link once the field holds `value`: as many
   * `/`-separated segments as the old one, the same segments except the
   * last, and the encoded value as the last.
   */
  function RewriteHref(href: string, value: string): (r: string)
    ensures var before, after := Split(href, '/'), Split(r, '/');
            |after| == |before|
            && after[..|after| - 1] == before[..|before| - 1]
            && after[|after| - 1] == UriComponent.Encode(value)
  {
    var segments := Split(href, '/');
    var parts := segments[..|segments| - 1] + [UriComponent.Encode(value)];
    assert forall i :: 0 <= i < |parts| ==> '/' !in parts[i] by {
      forall i | 0 <= i < |parts| ensures '/' !in parts[i] {
        if i < |segments| - 1 { assert parts[i] == segments[i]; }
      }
    }
    Join(parts, '/')
  }

  /** Decoding the last segment of the rewritten href gives the field value back. */
  lemma RewriteCarriesValue(href: string, value: string)
    ensures var after := Split(RewriteHref(href, value), '/');
            UriComponent.Decode(after[|after| - 1]) == Some(value)
  {
    UriComponent.DecodeEncode(value);
  }

  /** Only the latest value shows in the href: rewriting twice is rewriting once with the second value. */
  lemma RewriteTwice(href: string, first: string, second: string)
    ensures RewriteHref(RewriteHref(href, first), second) == RewriteHref(href, second)
  {
    var before, after := Split(href, '/'), Split(RewriteHref(href, first), '/');
    assert after[..|after| - 1] == before[..|before| - 1];
  }

  /** The field value `30,70` becomes the segment `30%2C70`. */
  lemma EncodeExample()
    ensures UriComponent.Encode("30,70") == "30%2C70"
  {
  }
}

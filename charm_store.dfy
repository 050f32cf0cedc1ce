/**
 * The two charm store query URLs the report script builds. Each is a fixed
 * template around one caller-supplied string, and that string can be read
 * back from the URL, so distinct dates or ids always ask distinct URLs.
 */
module CharmStore {
  import opened Wrappers

  const CharmstoreUrl := "https://api.jujucharms.com/charmstore/v5"
  const ChangesPath := "/changes/published?"
  const ChangesPrefix := CharmstoreUrl + ChangesPath + "start="
  const StopParam := "&stop="
  const PromulgatedSuffix := "/meta/promulgated"

  /**
   * The changes feed for one day: `start` and `stop` are both `date`, so
   * the date can be read back from the URL.
   */
  function ChangesUrl(date: string): (url: string)
    ensures ChangesUrlDate(url) == Some(date)
  {
    var url := CharmstoreUrl + ChangesPath + "start=" + date + "&stop=" + date;
    var rest := date + StopParam + date;
    assert url == ChangesPrefix + rest;
    assert url[..|ChangesPrefix|] == ChangesPrefix && url[|ChangesPrefix|..] == rest;
    assert rest[..|date|] == date;
    url
  }

  /** The promulgation status of one charm; the id can be read back from the URL. */
  function PromulgatedUrl(charmId: string): (url: string)
    ensures PromulgatedUrlId(url) == Some(charmId)
  {
    var url := CharmstoreUrl + "/" + charmId + "/meta/promulgated";
    var head := CharmstoreUrl + "/";
    assert url == head + charmId + PromulgatedSuffix;
    assert url[..|head|] == head;
    assert url[|url| - |PromulgatedSuffix|..] == PromulgatedSuffix;
    assert url[|head|..|url| - |PromulgatedSuffix|] == charmId;
    url
  }

  /** Reads the date back from a changes-feed URL; `None` for any other string. */
  function ChangesUrlDate(url: string): Option<string>
  {
    if |url| < |ChangesPrefix| + |StopParam| || url[..|ChangesPrefix|] != ChangesPrefix then None
    else
      var rest := url[|ChangesPrefix|..];
      var n := (|rest| - |StopParam|) / 2;
      var date := rest[..n];
      if rest == date + StopParam + date then Some(date) else None
  }

  /** Reads the charm id back from a promulgation URL; `None` for any other string. */
  function PromulgatedUrlId(url: string): Option<string>
  {
    var head := CharmstoreUrl + "/";
    if |url| < |head| + |PromulgatedSuffix| then None
    else if url[..|head|] != head || url[|url| - |PromulgatedSuffix|..] != PromulgatedSuffix then None
    else Some(url[|head|..|url| - |PromulgatedSuffix|])
  }

  /** The date is recovered from the URL built for it, and only such URLs yield a date. */
  lemma ChangesUrlRoundTrip(date: string, url: string)
    ensures ChangesUrlDate(ChangesUrl(date)) == Some(date)
    ensures ChangesUrlDate(url) == Some(date) ==> url == ChangesUrl(date)
  {
    if ChangesUrlDate(url) == Some(date) {
      assert url == url[..|ChangesPrefix|] + url[|ChangesPrefix|..];
    }
  }

  /** The id is recovered from the URL built for it, and only such URLs yield an id. */
  lemma PromulgatedUrlRoundTrip(charmId: string, url: string)
    ensures PromulgatedUrlId(PromulgatedUrl(charmId)) == Some(charmId)
    ensures PromulgatedUrlId(url) == Some(charmId) ==> url == PromulgatedUrl(charmId)
  {
    var head := CharmstoreUrl + "/";
    if PromulgatedUrlId(url) == Some(charmId) {
      assert url == url[..|head|] + url[|head|..|url| - |PromulgatedSuffix|] + url[|url| - |PromulgatedSuffix|..];
    }
  }
}

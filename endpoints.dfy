// The device URLs the app builds by string interpolation of the device address.

module Endpoints {
  import opened Wrappers
  import Search

  const SCHEME: string := "https://"
  /** The camera's route on the device. */
  const STREAM_ROUTE: string := "/route"
  /** The query selecting the motion-JPEG topic at the fixed 480x360 size the app asks for. */
  const STREAM_QUERY: string := "?topic=/display_mjpeg&width=480&height=360"
  /** Path of the camera stream: the route followed by its query. */
  const STREAM_PATH: string := STREAM_ROUTE + STREAM_QUERY
  const LOGIN_PATH: string := "/login"
  const HOME_PATH: string := "/home"
  const BATTERY_PATH: string := "/api/get_battery_level"

  /** A GET request to the device: the URL and the `Referer` header it carries, if any. */
  datatype Request = Request(url: string, referer: Option<string>)

  /** Reference reading of an https URL: the host is what lies between the scheme and the first '/'. */
  function SplitUrl(url: string): Option<(string, string)>
  {
    if |url| < |SCHEME| || url[..|SCHEME|] != SCHEME then None
    else
      var rest := url[|SCHEME|..];
      match Search.IndexOf(rest, '/', 0)
      case None => None
      case Some(i) => Some((rest[..i], rest[i..]))
  }

  /** "https://\(host)\(path)" addresses `host` at `path` whenever the host holds no '/'. */
  lemma DeviceUrlSplits(host: string, path: string)
    requires '/' !in host && |path| > 0 && path[0] == '/'
    ensures SplitUrl(SCHEME + host + path) == Some((host, path))
  {
    var url := SCHEME + host + path;
    var rest := url[|SCHEME|..];
    assert url[..|SCHEME|] == SCHEME;
    assert rest == host + path;
    forall k | 0 <= k < |host| ensures rest[k] != '/' {
      assert rest[k] == host[k];
    }
    Search.IndexOfIs(rest, '/', 0, |host|);
    assert rest[..|host|] == host;
    assert rest[|host|..] == path;
  }

  function DeviceUrl(host: string, path: string): (url: string)
    requires |path| > 0 && path[0] == '/'
    ensures '/' !in host ==> SplitUrl(url) == Some((host, path))
  {
    if '/' !in host then DeviceUrlSplits(host, path); SCHEME + host + path
    else SCHEME + host + path
  }

  /** The camera stream URL (also the manager's `videoStreamURL`). */
  function StreamUrl(host: string): (url: string)
    ensures '/' !in host ==> SplitUrl(url) == Some((host, STREAM_PATH))
  {
    DeviceUrl(host, STREAM_PATH)
  }

  function LoginUrl(host: string): (url: string)
    ensures '/' !in host ==> SplitUrl(url) == Some((host, LOGIN_PATH))
  {
    DeviceUrl(host, LOGIN_PATH)
  }

  function HomeUrl(host: string): (url: string)
    ensures '/' !in host ==> SplitUrl(url) == Some((host, HOME_PATH))
  {
    DeviceUrl(host, HOME_PATH)
  }

  function BatteryUrl(host: string): (url: string)
    ensures '/' !in host ==> SplitUrl(url) == Some((host, BATTERY_PATH))
  {
    DeviceUrl(host, BATTERY_PATH)
  }
}

/** `HostServices`: the list of download hosts and the URL of a package's
    remote file, with an optional query string. */
module Hosts {
  import opened Wrappers
  import opened Strings
  import opened Collections
  import Placeholders

  /** A package's runtime setting: its name and its remote load path, which
      may hold `{key}` placeholders. */
  datatype PackageSetting = PackageSetting(packageName: string, remoteLoadPath: string)

  /** LINQ `FirstOrDefault` on the package name: the first setting of the
      package, or `None`. */
  function FirstSetting(ss: seq<PackageSetting>, name: string): (r: Option<PackageSetting>)
    ensures r.Some? ==> r.value in ss && r.value.packageName == name
    ensures r.None? ==> forall k :: 0 <= k < |ss| ==> ss[k].packageName != name
  {
    if ss == [] then None
    else if ss[0].packageName == name then Some(ss[0])
    else FirstSetting(ss[1..], name)
  }

  /** The setting found is the first one of the package. */
  lemma {:induction false} FirstSettingIsFirst(ss: seq<PackageSetting>, name: string, k: nat)
    requires k < |ss| && ss[k].packageName == name
    requires forall j :: 0 <= j < k ==> ss[j].packageName != name
    ensures FirstSetting(ss, name) == Some(ss[k])
  {
    if k > 0 {
      assert ss[1..][k - 1] == ss[k];
      FirstSettingIsFirst(ss[1..], name, k - 1);
    }
  }

  /** Adding a host twice is adding it once. */
  lemma AddedIdempotent(urls: seq<string>, host: string)
    ensures AddAbsent(AddAbsent(urls, host), host) == AddAbsent(urls, host)
  {
  }

  /** The URL of a remote file: the first host, the package's expanded
      remote load path and the file name, joined by `/`. */
  function FileUrl(host: string, path: string, fileName: string): string {
    host + "/" + path + "/" + fileName
  }

  /** What the two-argument `GetMainUrl` gives for the hosts `urls`, the
      loaded settings `stored` (`None` when the asset is missing) and the
      placeholder table. */
  function MainUrl(urls: seq<string>, stored: Option<seq<PackageSetting>>, packageName: string,
                   fileName: string, table: map<string, string>): Result<string>
  {
    if |urls| == 0 then Ok("")
    else if stored.None? then Err(NullReference)
    else
      match FirstSetting(stored.value, packageName)
      case None => Ok("")
      case Some(s) => Ok(FileUrl(urls[0], Placeholders.Render(s.remoteLoadPath, table), fileName))
  }

  /** The file name is what follows the URL's last `/`, and the host is
      what comes before its first part. */
  lemma FileUrlParts(host: string, path: string, fileName: string)
    requires '/' !in fileName
    ensures var u := FileUrl(host, path, fileName);
      LastIndexOf(u, '/') == |u| - |fileName| - 1 &&
      u[LastIndexOf(u, '/') + 1..] == fileName &&
      StartsWith(u, host + "/")
  {
    var u := FileUrl(host, path, fileName);
    var at := |u| - |fileName| - 1;
    assert u[at] == '/';
    assert u[at + 1..] == fileName;
    forall j | at < j < |u| ensures u[j] != '/' {
      assert u[j] == fileName[j - at - 1];
    }
    assert u[..|host + "/"|] == host + "/";
  }

  /** One `key=value` item of a query string. */
  function Item(p: (string, string)): string {
    p.0 + "=" + p.1
  }

  /** The items of a query string, in the dictionary's enumeration order. */
  function Items(ps: seq<(string, string)>): (r: seq<string>)
    ensures |r| == |ps|
    ensures forall k :: 0 <= k < |ps| ==> r[k] == Item(ps[k])
  {
    seq(|ps|, k requires 0 <= k < |ps| => Item(ps[k]))
  }

  /** The query string: the items joined by `&`, with none trailing. */
  function Query(ps: seq<(string, string)>): string
    requires |ps| >= 1
  {
    Join(Items(ps), '&')
  }

  /** What the accumulation loop builds: every item followed by `&`. */
  function Terminated(ps: seq<(string, string)>): string {
    if ps == [] then "" else Item(ps[0]) + "&" + Terminated(ps[1..])
  }

  /** One more item extends the loop's string at its end. */
  lemma {:induction false} TerminatedSnoc(ps: seq<(string, string)>, p: (string, string))
    ensures Terminated(ps + [p]) == Terminated(ps) + Item(p) + "&"
  {
    if ps != [] {
      assert (ps + [p])[1..] == ps[1..] + [p];
      TerminatedSnoc(ps[1..], p);
    } else {
      assert ([p])[1..] == [];
    }
  }

  /** The loop's string is the query string with one `&` more. */
  lemma {:induction false} TerminatedQuery(ps: seq<(string, string)>)
    requires |ps| >= 1
    ensures Terminated(ps) == Query(ps) + "&"
  {
    if |ps| > 1 {
      TerminatedQuery(ps[1..]);
      assert Items(ps)[1..] == Items(ps[1..]);
    }
  }

  /** The url with its query: unchanged when it is empty or there are no
      parameters. */
  function WithQuery(url: string, params: Option<seq<(string, string)>>): string {
    if url == "" || params.None? || params.value == [] then url
    else url + "?" + Query(params.value)
  }

  /** The query string gives back its items when no key or value holds
      `&`. */
  lemma QueryItems(ps: seq<(string, string)>)
    requires |ps| >= 1
    requires forall k :: 0 <= k < |ps| ==> '&' !in ps[k].0 && '&' !in ps[k].1
    ensures Split(Query(ps), '&') == Items(ps)
  {
    var items := Items(ps);
    forall k, i | 0 <= k < |items| && 0 <= i < |items[k]| ensures items[k][i] != '&' {
      assert items[k] == ps[k].0 + "=" + ps[k].1;
      if i < |ps[k].0| {
        assert items[k][i] == ps[k].0[i];
      } else if i > |ps[k].0| {
        assert items[k][i] == ps[k].1[i - |ps[k].0| - 1];
      }
    }
    SplitJoin(items, '&');
  }

  /** The accumulation loop of the parameters overload: each item followed
      by `&`, so the query string with one `&` more when there are
      parameters. */
  method ParamString(ps: seq<(string, string)>) returns (paramstr: string)
    ensures ps == [] ==> paramstr == ""
    ensures ps != [] ==> paramstr == Query(ps) + "&"
  {
    paramstr := "";
    var i := 0;
    while i < |ps|
      invariant 0 <= i <= |ps|
      invariant paramstr == Terminated(ps[..i])
    {
      TerminatedSnoc(ps[..i], ps[i]);
      assert ps[..i + 1] == ps[..i] + [ps[i]];
      paramstr := paramstr + ps[i].0 + "=" + ps[i].1 + "&";
      i := i + 1;
    }
    assert ps[..i] == ps;
    if ps != [] {
      TerminatedQuery(ps);
    }
  }

  /** The host services: the hosts in insertion order, the runtime settings
      once loaded and the packages reported without a setting. */
  class HostServices {
    var urls: seq<string>
    /** `None` until loaded, and after a load that found no asset. */
    var settings: Option<seq<PackageSetting>>
    /** What `Resources.Load` of the runtime settings asset gives. */
    const stored: Option<seq<PackageSetting>>
    /** The packages `Debug.LogError` reported without a runtime setting. */
    var missing: seq<string>

    /** The hosts are distinct, and the settings are either not loaded or
        the stored ones. */
    ghost predicate Valid()
      reads this
    {
      Distinct(urls) && (settings.None? || settings == stored)
    }

    /** `Enabled`: at least one host is registered. */
    predicate Enabled()
      reads this
    {
      |urls| > 0
    }

    constructor(stored: Option<seq<PackageSetting>>)
      ensures Valid() && urls == [] && settings == None && missing == []
      ensures this.stored == stored
    {
      this.stored := stored;
      urls := [];
      settings := None;
      missing := [];
    }

    /** `LoadConfig`: loads the settings unless they are loaded already. */
    method LoadConfig()
      requires Valid()
      modifies this`settings
      ensures Valid() && settings == stored
      ensures urls == old(urls) && missing == old(missing)
    {
      if settings.None? {
        settings := stored;
      }
    }

    /** `AddDownloadHost`: appends the host unless it is present, then
        loads the settings. */
    method AddDownloadHost(host: string)
      requires Valid()
      modifies this`urls, this`settings
      ensures Valid() && Enabled()
      ensures urls == AddAbsent(old(urls), host)
      ensures settings == stored && missing == old(missing)
    {
      if host !in urls {
        DistinctSnoc(urls, host);
        urls := urls + [host];
      }
      LoadConfig();
    }

    /** `SetDownloadHost`: the host becomes the only one. */
    method SetDownloadHost(host: string)
      requires Valid()
      modifies this`urls, this`settings
      ensures Valid() && Enabled()
      ensures urls == [host]
      ensures settings == stored && missing == old(missing)
    {
      urls := [];
      AddDownloadHost(host);
    }

    /** `GetMainUrl(packageName, fileName)`: "" without hosts or without a
        setting for the package (which is logged), otherwise the file's URL
        on the first host. Without a settings asset it throws. */
    method GetMainUrl(packageName: string, fileName: string, util: Placeholders.StringPlaceholderUtil)
      returns (r: Result<string>)
      requires Valid()
      modifies this`settings, this`missing
      ensures Valid() && urls == old(urls)
      ensures r == MainUrl(urls, stored, packageName, fileName, util.cache)
      ensures Enabled() ==> settings == stored
      ensures !Enabled() ==> settings == old(settings)
      ensures missing == if Enabled() && stored.Some? && FirstSetting(stored.value, packageName).None?
                         then old(missing) + [packageName] else old(missing)
    {
      if |urls| > 0 {
        LoadConfig();
        if settings.None? {
          return Err(NullReference);
        }
        var setting := FirstSetting(settings.value, packageName);
        if setting.Some? {
          var path := util.GetString(setting.value.remoteLoadPath);
          return Ok(urls[0] + "/" + path + "/" + fileName);
        } else {
          missing := missing + [packageName];
        }
      }
      return Ok("");
    }

    /** `GetMainUrl(packageName, fileName, param)`: the URL, followed by
        `?` and the parameters' `key=value` items joined by `&` when the URL
        is not empty and there are parameters. */
    method GetMainUrlWithParams(packageName: string, fileName: string,
                                params: Option<seq<(string, string)>>,
                                util: Placeholders.StringPlaceholderUtil)
      returns (r: Result<string>)
      requires Valid()
      modifies this`settings, this`missing
      ensures Valid() && urls == old(urls)
      ensures var base := MainUrl(urls, stored, packageName, fileName, util.cache);
        r == if base.Err? then base else Ok(WithQuery(base.value, params))
      ensures Enabled() ==> settings == stored
      ensures !Enabled() ==> settings == old(settings)
      ensures missing == if Enabled() && stored.Some? && FirstSetting(stored.value, packageName).None?
                         then old(missing) + [packageName] else old(missing)
    {
      var u := GetMainUrl(packageName, fileName, util);
      if u.Err? {
        return u;
      }
      var url := u.value;
      if url != "" && params.Some? {
        var ps := params.value;
        var paramstr := ParamString(ps);
        if paramstr != "" {
          url := url + "?" + paramstr[..|paramstr| - 1];
        }
      }
      return Ok(url);
    }
  }
}

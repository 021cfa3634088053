/** URLs as `urlparse` splits them, and the string rules both harvesters
    use to turn a URL into a file name. */
module Urls {
  import opened Wrappers
  import opened Strings

  /** The parts of `urlparse(url)` the harvesters look at; `tail` is what
      `geturl()` puts after the path (`;params`, `?query`, `#fragment`). */
  datatype Url = Url(scheme: string, netloc: string, path: string, tail: string)

  /** `urlparse(...).geturl()` (`urlunsplit`): a path that does not start
      with "/" gets one once there is a network location. */
  function GetUrl(u: Url): string {
    var path := if u.netloc != "" && u.path != "" && u.path[0] != '/' then "/" + u.path else u.path;
    var rest := if u.netloc != "" then "//" + u.netloc + path else path;
    (if u.scheme != "" then u.scheme + ":" else "") + rest + u.tail
  }

  /** argparse's ArgumentTypeError. */
  datatype ArgumentTypeError = ArgumentTypeError(msg: string)

  /** harvest-rdf.py's `absolute_url`: a URL with both a scheme and a
      network location is accepted and returned re-assembled; any other is
      refused. */
  function AbsoluteUrl(u: Url): (r: Result<string, ArgumentTypeError>)
    ensures r.Failure? <==> u.scheme == "" || u.netloc == ""
    ensures r.Failure? ==> r.error.msg == "An absolute URL is required"
    ensures r.Success? ==> StartsWith(r.value, u.scheme + "://" + u.netloc)
  {
    if u.scheme == "" || u.netloc == "" then Failure(ArgumentTypeError("An absolute URL is required"))
    else
      var r := GetUrl(u);
      assert r == (u.scheme + "://" + u.netloc) + (if u.path != "" && u.path[0] != '/' then "/" + u.path else u.path) + u.tail;
      Success(r)
  }

  /** An accepted URL keeps its path, query and fragment. */
  lemma AbsoluteUrlKeepsPath(u: Url)
    requires u.scheme != "" && u.netloc != ""
    requires u.path == "" || u.path[0] == '/'
    ensures AbsoluteUrl(u) == Success(u.scheme + "://" + u.netloc + u.path + u.tail)
  {
    assert ":" + "//" == "://";
    assert u.scheme + ":" + ("//" + u.netloc + u.path) + u.tail == u.scheme + "://" + u.netloc + u.path + u.tail;
  }

  /** The host part of a file name: `.` becomes `_` and `:` becomes `-`. */
  function HostPart(netloc: string): (r: string)
    ensures |r| == |netloc|
    ensures forall i :: 0 <= i < |r| ==>
              r[i] == (if netloc[i] == '.' then '_' else if netloc[i] == ':' then '-' else netloc[i])
  {
    ReplaceChar(ReplaceChar(netloc, '.', '_'), ':', '-')
  }

  /** The path part of a file name: the slashes at either end dropped, the
      inner ones turned into `-`. */
  function PathPart(path: string): (r: string)
    ensures '/' !in r
  {
    var r := ReplaceChar(Strip(path, '/'), '/', '-');
    assert forall i :: 0 <= i < |r| ==> r[i] != '/';
    r
  }

  /** `filebase`: the host part, then `_` and the path part when that is
      not empty. */
  function FileBase(u: Url): string {
    var host := HostPart(u.netloc);
    var path := PathPart(u.path);
    if path != "" then host + "_" + path else host
  }

  lemma HostPartClean(netloc: string)
    ensures '.' !in HostPart(netloc) && ':' !in HostPart(netloc)
    ensures '/' !in netloc ==> '/' !in HostPart(netloc)
  {
    var r := HostPart(netloc);
    assert forall i :: 0 <= i < |r| ==> r[i] != '.' && r[i] != ':';
    if '/' !in netloc {
      assert forall i :: 0 <= i < |r| ==> r[i] != '/';
    }
  }

  /** A file base never holds a `/` the network location did not. */
  lemma FileBaseClean(u: Url)
    ensures '/' !in u.netloc ==> '/' !in FileBase(u)
  {
    HostPartClean(u.netloc);
    var host := HostPart(u.netloc);
    var path := PathPart(u.path);
    if '/' !in u.netloc && path != "" {
      var b := host + "_" + path;
      forall i | 0 <= i < |b| ensures b[i] != '/' {
        if i < |host| {
          assert b[i] == host[i];
        } else if i > |host| {
          assert b[i] == path[i - |host| - 1];
        }
      }
    }
  }

  /** The path part is the path with its leading and trailing runs of `/`
      removed and the inner `/` replaced by `-`. */
  lemma PathPartShape(path: string) returns (i: nat, j: nat)
    ensures i <= j <= |path|
    ensures forall k :: 0 <= k < i ==> path[k] == '/'
    ensures forall k :: j <= k < |path| ==> path[k] == '/'
    ensures i < j ==> path[i] != '/' && path[j - 1] != '/'
    ensures |PathPart(path)| == j - i
    ensures forall k :: 0 <= k < j - i ==>
              PathPart(path)[k] == (if path[i + k] == '/' then '-' else path[i + k])
  {
    i, j := StripShape(path, '/');
  }

  /** A path of slashes only names no more than the host. */
  lemma PathPartEmpty(path: string)
    ensures PathPart(path) == "" <==> forall k :: 0 <= k < |path| ==> path[k] == '/'
  {
    var i, j := PathPartShape(path);
    if i < j {
      assert path[i] != '/';
    }
  }

  /** Slashes at the two ends of the path do not change the file name. */
  lemma PathPartIgnoresOuterSlashes(path: string)
    ensures PathPart("/" + path + "/") == PathPart(path)
  {
    var p := "/" + path + "/";
    assert LStrip(p, '/') == LStrip(path + "/", '/') by {
      assert p[1..] == path + "/";
    }
    if |LStrip(path, '/')| == 0 {
      LStripSlashSuffix(path);
    } else {
      LStripAppend(path, "/");
    }
    RStripOneMore(LStrip(path, '/'));
  }

  lemma {:induction false} LStripAppend(s: string, t: string)
    requires LStrip(s, '/') != []
    ensures LStrip(s + t, '/') == LStrip(s, '/') + t
  {
    if s[0] == '/' {
      assert (s + t)[1..] == s[1..] + t;
      LStripAppend(s[1..], t);
    }
  }

  lemma {:induction false} LStripSlashSuffix(s: string)
    requires LStrip(s, '/') == []
    ensures LStrip(s + "/", '/') == []
  {
    if s != [] {
      assert (s + "/")[1..] == s[1..] + "/";
      LStripSlashSuffix(s[1..]);
    }
  }

  lemma RStripOneMore(s: string)
    ensures RStrip(s + "/", '/') == RStrip(s, '/')
  {
    assert (s + "/")[..|s|] == s;
  }

  /** `os.path.join(a, b)` (posixpath): an absolute `b` replaces `a`;
      otherwise a `/` is put between them unless `a` is empty or already
      ends with one. */
  function PathJoin(a: string, b: string): (r: string)
    ensures !StartsWith(b, "/") ==> StartsWith(r, a) && EndsWith(r, b)
    ensures StartsWith(b, "/") ==> r == b
  {
    if StartsWith(b, "/") then b
    else if a == "" || EndsWith(a, "/") then a + b
    else
      assert (a + "/" + b)[..|a|] == a;
      assert (a + "/" + b)[|a + "/" + b| - |b|..] == b;
      a + "/" + b
  }

  /** The file lands in the directory `a`: nothing but one separator comes
      between the directory and the name. */
  lemma PathJoinInDirectory(a: string, b: string)
    requires a != "" && !EndsWith(a, "/") && !StartsWith(b, "/")
    ensures PathJoin(a, b) == a + "/" + b
  {
  }
}

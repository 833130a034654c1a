/** Which paths the script looks at, and which detail page it asks for each. */
module Paths {
  import opened Text

  /** Base of every detail-page URL. */
  const ENDPOINT: string := "https://gtfobins.github.io/gtfobins/"

  /** The lines of standard input, which is read only when it is not a terminal. */
  function PipedPaths(stdinIsTty: bool, stdin: string): seq<string> {
    if stdinIsTty then [] else SplitLines(stdin)
  }

  /** `sys.argv[1:]`: the command-line arguments after the program name. */
  function Arguments(argv: seq<string>): seq<string> {
    if |argv| > 1 then argv[1..] else []
  }

  /** Builds the candidate list: first every piped line, then every argument, each
      group in its own order. */
  method CollectCandidates(stdinIsTty: bool, stdin: string, argv: seq<string>)
    returns (files: seq<string>)
    ensures files == PipedPaths(stdinIsTty, stdin) + Arguments(argv)
    ensures var piped := PipedPaths(stdinIsTty, stdin);
      && |files| == |piped| + (if |argv| > 1 then |argv| - 1 else 0)
      && (forall k | 0 <= k < |piped| :: files[k] == piped[k])
      && (forall j | 1 <= j < |argv| :: files[|piped| + j - 1] == argv[j])
    ensures stdinIsTty ==> files == Arguments(argv)
  {
    files := [];
    if !stdinIsTty {
      files := files + SplitLines(stdin);
    }
    if |argv| > 1 {
      files := files + argv[1..];
    }
  }

  /** `path.split("/")[-1]`: the last `/`-separated component of the path. */
  function Basename(path: string): (name: string)
    ensures '/' !in name
  {
    var parts := SplitOn(path, '/');
    parts[|parts| - 1]
  }

  /** The basename is the longest `/`-free suffix of the path: it ends the path, and
      unless it is the whole path the character before it is a `/`. */
  lemma {:induction false} BasenameIsFinalComponent(path: string)
    ensures |Basename(path)| <= |path|
    ensures Basename(path) == path[|path| - |Basename(path)|..]
    ensures |Basename(path)| < |path| ==> path[|path| - |Basename(path)| - 1] == '/'
  {
    if path != [] {
      var tail := path[1..];
      var rest := SplitOn(tail, '/');
      var name, tname := Basename(path), Basename(tail);
      BasenameIsFinalComponent(tail);
      if path[0] != '/' && |rest| == 1 {
        JoinSplit(tail, '/');
        assert name == [path[0]] + tail == path;
      } else {
        assert name == tname;
        assert tail[|tail| - |tname|..] == path[|path| - |name|..];
        if |name| < |tail| {
          assert path[|path| - |name| - 1] == tail[|tail| - |tname| - 1];
        } else if path[0] != '/' {
          SplitOnFree(tail, '/');
          assert false;
        }
      }
    }
  }

  /** A path without `/` is its own basename, so taking the basename twice changes
      nothing more. */
  lemma BasenameOfPlainName(path: string)
    ensures '/' !in path ==> Basename(path) == path
    ensures Basename(Basename(path)) == Basename(path)
  {
    if '/' !in path {
      SplitOnFree(path, '/');
    }
    SplitOnFree(Basename(path), '/');
  }

  /** The detail-page URL requested for a path. */
  function DetailUrl(path: string): string {
    ENDPOINT + Basename(path) + "/"
  }

  /** The URL is the endpoint, then the path's last component, then a final `/`;
      the component can be read back from between the two. */
  lemma DetailUrlShape(path: string)
    ensures var url := DetailUrl(path);
      && |url| == |ENDPOINT| + |Basename(path)| + 1
      && StartsWith(url, ENDPOINT) && url[|url| - 1] == '/'
      && url[|ENDPOINT|..|url| - 1] == Basename(path)
  {
  }

  /** Two paths lead to the same request exactly when their basenames agree, and a
      plain name is put into the URL unchanged. */
  lemma DetailUrlIdentifiesName(p: string, q: string)
    ensures DetailUrl(p) == DetailUrl(q) <==> Basename(p) == Basename(q)
    ensures '/' !in p ==> DetailUrl(p) == ENDPOINT + p + "/"
  {
    DetailUrlShape(p);
    DetailUrlShape(q);
    if DetailUrl(p) == DetailUrl(q) {
      assert Basename(p) == DetailUrl(p)[|ENDPOINT|..|DetailUrl(p)| - 1];
    }
    BasenameOfPlainName(p);
  }
}

/** Permalink queries (cpp/query.cpp:24-50): "permalink/a/b/c" names the node registered for the
    longest prefix of the path, and the rest of the path is a query under that node. */
module Permalinks {
  import opened Wrappers
  import opened Paths

  /** A registered node, with the context it carries. */
  datatype Target = Target(id: int, context: Option<int>)

  datatype Resolution =
    | Ordinary(query: string, context: Option<int>)
    | Node(node: Target)
    | Under(context: Option<int>, query: string)
    | Nothing

  const KEYWORD := "permalink/"

  /** p is the path, or the path goes on with a slash after p. */
  predicate PathPrefix(p: string, path: string) {
    p == path || p + "/" <= path
  }

  lemma PartsArePathPrefixes(path: string, i: nat)
    requires 1 <= i <= |Split(path, '/')|
    ensures PathPrefix(Join(Split(path, '/')[..i], '/'), path)
    ensures i == |Split(path, '/')| <==> Join(Split(path, '/')[..i], '/') == path
    ensures i < |Split(path, '/')| ==>
              path == Join(Split(path, '/')[..i], '/') + "/" + Join(Split(path, '/')[i..], '/')
  {
    var parts := Split(path, '/');
    JoinSplit(path, '/');
    if i < |parts| {
      JoinConcat(parts[..i], parts[i..], '/');
      assert parts == parts[..i] + parts[i..];
      assert Join(parts[..i], '/') + "/" <= path;
      assert |Join(parts[..i], '/')| < |path|;
    } else {
      assert parts[..i] == parts;
    }
  }

  lemma PathPrefixesAreParts(p: string, path: string) returns (i: nat)
    requires PathPrefix(p, path)
    ensures 1 <= i <= |Split(path, '/')| && Join(Split(path, '/')[..i], '/') == p
  {
    var parts := Split(path, '/');
    JoinSplit(p, '/');
    i := |Split(p, '/')|;
    if p == path {
      assert parts[..i] == parts;
    } else {
      var q := path[|p| + 1..];
      assert path == p + "/" + q;
      SplitConcat(p, q, '/');
      assert parts[..i] == Split(p, '/');
    }
  }

  lemma {:induction false} JoinGrows(parts: seq<string>, i: nat, j: nat)
    requires 1 <= i <= j <= |parts|
    ensures |Join(parts[..i], '/')| <= |Join(parts[..j], '/')|
    ensures i < j ==> |Join(parts[..i], '/')| < |Join(parts[..j], '/')|
  {
    if i < j {
      JoinConcat(parts[..i], parts[i..j], '/');
      assert parts[..j] == parts[..i] + parts[i..j];
    }
  }

  /** No registered path prefix is longer than n. */
  predicate NoneLonger(permalinks: map<string, Target>, path: string, n: int) {
    forall p :: p in permalinks && PathPrefix(p, path) ==> |p| <= n
  }

  /** What a permalink query must resolve to, said without splitting anything. */
  predicate Resolves(permalinks: map<string, Target>, path: string, r: Resolution) {
    match r
    case Ordinary(_, _) => false
    case Node(node) => path in permalinks && node == permalinks[path]
    case Under(context, query) =>
      |query| < |path|
      && var n := |path| - |query| - 1;
      && path[n..] == "/" + query
      && path[..n] in permalinks && context == permalinks[path[..n]].context
      && NoneLonger(permalinks, path, n)
    case Nothing => forall p :: p in permalinks ==> !PathPrefix(p, path)
  }

  /** There is only one such resolution. */
  lemma ResolutionIsUnique(permalinks: map<string, Target>, path: string, r: Resolution, r': Resolution)
    requires Resolves(permalinks, path, r) && Resolves(permalinks, path, r')
    ensures r == r'
  {
    if r.Under? {
      UnderIsPrefix(permalinks, path, r);
    }
    if r'.Under? {
      UnderIsPrefix(permalinks, path, r');
    }
    if path in permalinks {
      assert PathPrefix(path, path);
    }
    if r.Under? && r'.Under? {
      assert r.query == path[|path| - |r.query|..] && r'.query == path[|path| - |r'.query|..];
    }
  }

  lemma UnderIsPrefix(permalinks: map<string, Target>, path: string, r: Resolution)
    requires r.Under? && Resolves(permalinks, path, r)
    ensures var n := |path| - |r.query| - 1;
            n < |path| && PathPrefix(path[..n], path)
    ensures r.query == path[|path| - |r.query|..]
  {
    var n := |path| - |r.query| - 1;
    assert path[n..][0] == '/' && path[n..][1..] == r.query;
    assert path[..n] + "/" == path[..n + 1];
    assert path[n..][1..] == path[n + 1..];
  }

  method Resolve(q: string, context: Option<int>, permalinks: map<string, Target>) returns (r: Resolution)
    ensures var absolute := q != "" && q[0] == '/';
            var query := if absolute then q[1..] else q;
            if "permalink/" <= query && Free(query[10..], '\n') then Resolves(permalinks, query[10..], r)
            else r == Ordinary(query, if absolute then None else context)
  {
    var query, ctx := q, context;
    if query != "" && query[0] == '/' {
      query := query[1..];
      ctx := None;
    }
    if KEYWORD <= query && Free(query[|KEYWORD|..], '\n') {
      var path := query[|KEYWORD|..];
      r := ResolvePath(path, permalinks);
    } else {
      r := Ordinary(query, ctx);
    }
  }

  /** The loop from the whole path down to no part at all. */
  method ResolvePath(path: string, permalinks: map<string, Target>) returns (r: Resolution)
    ensures Resolves(permalinks, path, r)
  {
    var pathParts := Split(path, '/');
    var i := |pathParts|;
    while true
      invariant 0 <= i <= |pathParts|
      invariant forall j :: i < j <= |pathParts| ==> Join(pathParts[..j], '/') !in permalinks
      decreases i
    {
      if i == 0 {
        forall p | p in permalinks ensures !PathPrefix(p, path) {
          if PathPrefix(p, path) {
            var j := PathPrefixesAreParts(p, path);
          }
        }
        return Nothing;
      }
      var permalink := Join(pathParts[..i], '/');
      PartsArePathPrefixes(path, i);
      if permalink in permalinks {
        if i == |pathParts| {
          return Node(permalinks[permalink]);
        }
        ghost var n := |permalink|;
        var query := Join(pathParts[i..], '/');
        LongestRegistered(permalinks, path, i);
        assert path[..n] == permalink && path[n..] == "/" + query;
        return Under(permalinks[permalink].context, query);
      }
      i := i - 1;
    }
  }

  lemma LongestRegistered(permalinks: map<string, Target>, path: string, i: nat)
    requires 1 <= i <= |Split(path, '/')|
    requires forall j :: i < j <= |Split(path, '/')| ==> Join(Split(path, '/')[..j], '/') !in permalinks
    ensures NoneLonger(permalinks, path, |Join(Split(path, '/')[..i], '/')|)
  {
    forall p | p in permalinks && PathPrefix(p, path) ensures |p| <= |Join(Split(path, '/')[..i], '/')| {
      var j := PathPrefixesAreParts(p, path);
      if j <= i {
        JoinGrows(Split(path, '/'), j, i);
      }
    }
  }
}

/** `ensure_no_collision`: an identifier that occurs nowhere in a token stream, groups included. */
module Labels {

  datatype TokenTree = Ident(name: string) | Group(stream: seq<TokenTree>) | Other

  /** The path of positions leads through groups in groups to the identifier `name`. */
  ghost predicate OccursAt(name: string, stream: seq<TokenTree>, path: seq<nat>)
    decreases path
  {
    && path != [] && path[0] < |stream|
    && if |path| == 1 then stream[path[0]] == Ident(name)
       else stream[path[0]].Group? && OccursAt(name, stream[path[0]].stream, path[1..])
  }

  ghost predicate Occurs(name: string, stream: seq<TokenTree>) {
    exists path :: OccursAt(name, stream, path)
  }

  /** The identifiers occurring anywhere in a stream. */
  function Idents(stream: seq<TokenTree>): set<string> {
    if stream == [] then {} else IdentsOf(stream[0]) + Idents(stream[1..])
  }

  function IdentsOf(token: TokenTree): set<string> {
    match token
    case Ident(name) => {name}
    case Group(stream) => Idents(stream)
    case Other => {}
  }

  lemma {:induction false} TokenIdents(stream: seq<TokenTree>, i: nat)
    requires i < |stream|
    ensures IdentsOf(stream[i]) <= Idents(stream)
  {
    if i > 0 {
      TokenIdents(stream[1..], i - 1);
    }
  }

  lemma {:induction false} OccurrenceIsIdent(name: string, stream: seq<TokenTree>, path: seq<nat>)
    requires OccursAt(name, stream, path)
    ensures name in Idents(stream)
    decreases path
  {
    TokenIdents(stream, path[0]);
    if |path| > 1 {
      OccurrenceIsIdent(name, stream[path[0]].stream, path[1..]);
    }
  }

  lemma {:induction false} IdentOccurs(name: string, stream: seq<TokenTree>)
    requires name in Idents(stream)
    ensures Occurs(name, stream)
    decreases stream
  {
    if name in IdentsOf(stream[0]) {
      match stream[0] {
        case Ident(_) =>
          assert OccursAt(name, stream, [0]);
        case Group(inner) =>
          IdentOccurs(name, inner);
          var path :| OccursAt(name, inner, path);
          assert ([0] + path)[1..] == path;
          assert OccursAt(name, stream, [0] + path);
      }
    } else {
      IdentOccurs(name, stream[1..]);
      var path :| OccursAt(name, stream[1..], path);
      var shifted := [path[0] + 1] + path[1..];
      assert shifted[1..] == path[1..] && stream[1..][path[0]] == stream[shifted[0]];
      assert OccursAt(name, stream, shifted);
    }
  }

  /** The collected identifiers are exactly those that occur somewhere. */
  lemma IdentsAreOccurrences(stream: seq<TokenTree>)
    ensures forall name :: name in Idents(stream) <==> Occurs(name, stream)
  {
    forall name
      ensures name in Idents(stream) <==> Occurs(name, stream)
    {
      if name in Idents(stream) {
        IdentOccurs(name, stream);
      }
      if path :| OccursAt(name, stream, path) {
        OccurrenceIsIdent(name, stream, path);
      }
    }
  }

  function Size(stream: seq<TokenTree>): nat {
    if stream == [] then 1 else SizeOf(stream[0]) + Size(stream[1..])
  }

  function SizeOf(token: TokenTree): nat {
    match token
    case Ident(_) => 0
    case Group(stream) => Size(stream)
    case Other => 0
  }

  function IdentsOfAll(streams: seq<seq<TokenTree>>): set<string> {
    if streams == [] then {} else IdentsOfAll(streams[..|streams| - 1]) + Idents(streams[|streams| - 1])
  }

  function SizeOfAll(streams: seq<seq<TokenTree>>): nat {
    if streams == [] then 0 else SizeOfAll(streams[..|streams| - 1]) + Size(streams[|streams| - 1])
  }

  lemma OneMoreStream(streams: seq<seq<TokenTree>>, stream: seq<TokenTree>)
    ensures IdentsOfAll(streams + [stream]) == IdentsOfAll(streams) + Idents(stream)
    ensures SizeOfAll(streams + [stream]) == SizeOfAll(streams) + Size(stream)
  {
    assert (streams + [stream])[..|streams|] == streams;
  }

  /** Collecting identifiers with a worklist of streams still to be visited. */
  method CollectIdents(haystack: seq<TokenTree>) returns (found: set<string>)
    ensures forall name :: name in found <==> Occurs(name, haystack)
  {
    hide Occurs;
    IdentsAreOccurrences(haystack);
    var unvisited := [haystack];
    found := {};
    OneMoreStream([], haystack);
    while unvisited != []
      invariant found + IdentsOfAll(unvisited) == Idents(haystack)
      decreases SizeOfAll(unvisited)
    {
      var tokens := unvisited[|unvisited| - 1];
      ghost var before := SizeOfAll(unvisited);
      unvisited := unvisited[..|unvisited| - 1];
      for k := 0 to |tokens|
        invariant found + IdentsOfAll(unvisited) + Idents(tokens[k..]) == Idents(haystack)
        invariant SizeOfAll(unvisited) + Size(tokens[k..]) <= before
      {
        assert tokens[k..][0] == tokens[k] && tokens[k..][1..] == tokens[k + 1..];
        match tokens[k] {
          case Ident(name) => found := found + {name};
          case Group(stream) =>
            OneMoreStream(unvisited, stream);
            unvisited := unvisited + [stream];
          case Other =>
        }
      }
      assert tokens[|tokens|..] == [];
    }
  }

  function Xs(k: nat): (r: string)
    ensures |r| == k && forall i :: 0 <= i < k ==> r[i] == 'X'
  {
    if k == 0 then "" else Xs(k - 1) + "X"
  }

  function NotShorter(idents: set<string>, n: nat): set<string> {
    set s | s in idents && |s| >= n
  }

  /** The result is the value with the fewest `X`s appended that occurs nowhere in the haystack. */
  method EnsureNoCollision(value: string, haystack: seq<TokenTree>) returns (chosen: string, ghost k: nat)
    ensures chosen == value + Xs(k)
    ensures !Occurs(chosen, haystack)
    ensures forall j: nat :: j < k ==> Occurs(value + Xs(j), haystack)
  {
    var idents := CollectIdents(haystack);
    chosen, k := value, 0;
    assert value + Xs(0) == value;
    while chosen in idents
      invariant chosen == value + Xs(k)
      invariant forall j: nat :: j < k ==> value + Xs(j) in idents
      decreases |NotShorter(idents, |chosen|)|
    {
      FewerElements(NotShorter(idents, |chosen| + 1), NotShorter(idents, |chosen|), chosen);
      assert value + Xs(k + 1) == chosen + "X";
      chosen := chosen + "X";
      k := k + 1;
    }
  }

  lemma FewerElements(a: set<string>, b: set<string>, x: string)
    requires a <= b && x in b && x !in a
    ensures |a| < |b|
  {
    assert a <= b - {x};
    CardinalityIsMonotone(a, b - {x});
  }

  lemma {:induction false} CardinalityIsMonotone(a: set<string>, b: set<string>)
    requires a <= b
    ensures |a| <= |b|
  {
    if x :| x in a {
      CardinalityIsMonotone(a - {x}, b - {x});
    }
  }

  /** The number of `X`s is determined: no other count is both free and preceded by taken names only. */
  lemma LeastCountIsUnique(value: string, haystack: seq<TokenTree>, k: nat, m: nat)
    requires !Occurs(value + Xs(k), haystack) && forall j: nat :: j < k ==> Occurs(value + Xs(j), haystack)
    requires !Occurs(value + Xs(m), haystack) && forall j: nat :: j < m ==> Occurs(value + Xs(j), haystack)
    ensures k == m
  {
  }
}

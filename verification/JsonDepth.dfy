/** The nesting limit of request bodies: a loop over decoder tokens against the
    recursive check it stands for. */
module JsonDepth {

  const LIMIT := 32

  datatype Json =
    | Scalar
    | Array(elements: seq<Json>)
    | Object(members: seq<Member>)

  datatype Member = Member(name: string, value: Json)

  /** Tokens as the decoder hands them out; member names are tokens of their own. */
  datatype Token = BeginArray | EndArray | BeginObject | EndObject | Name(name: string) | Atom

  predicate Closes(t: Token) {
    t.EndArray? || t.EndObject?
  }

  function Change(t: Token): int {
    if t.BeginArray? || t.BeginObject? then 1 else if Closes(t) then -1 else 0
  }

  function Tokens(v: Json): seq<Token>
    decreases v
  {
    match v
    case Scalar => [Atom]
    case Array(elements) => [BeginArray] + ElementTokens(elements) + [EndArray]
    case Object(members) => [BeginObject] + MemberTokens(members) + [EndObject]
  }

  function ElementTokens(elements: seq<Json>): seq<Token>
    decreases elements
  {
    if elements == [] then [] else Tokens(elements[0]) + ElementTokens(elements[1..])
  }

  function MemberTokens(members: seq<Member>): seq<Token>
    decreases members
  {
    if members == [] then []
    else [Name(members[0].name)] + Tokens(members[0].value) + MemberTokens(members[1..])
  }

  // --------------------------------------------------- the recursive validator

  /** Every value and member name lies within the limit, the value itself at `depth`. */
  predicate Fits(v: Json, depth: nat)
    decreases v
  {
    depth <= LIMIT &&
    match v
    case Scalar => true
    case Array(elements) => forall i :: 0 <= i < |elements| ==> Fits(elements[i], depth + 1)
    case Object(members) => forall i :: 0 <= i < |members| ==> depth + 1 <= LIMIT && Fits(members[i].value, depth + 1)
  }

  /** How far below a value its deepest value or member name lies. */
  function Height(v: Json): nat
    decreases v
  {
    match v
    case Scalar => 0
    case Array(elements) => ElementsHeight(elements)
    case Object(members) => MembersHeight(members)
  }

  function Max(a: nat, b: nat): nat {
    if a >= b then a else b
  }

  function ElementsHeight(elements: seq<Json>): nat
    decreases elements
  {
    if elements == [] then 0 else Max(1 + Height(elements[0]), ElementsHeight(elements[1..]))
  }

  function MembersHeight(members: seq<Member>): nat
    decreases members
  {
    if members == [] then 0 else Max(1 + Height(members[0].value), MembersHeight(members[1..]))
  }

  lemma {:induction false} FitsIsHeight(v: Json, depth: nat)
    ensures Fits(v, depth) <==> depth + Height(v) <= LIMIT
    decreases v
  {
    match v
    case Scalar =>
    case Array(elements) => ElementsFit(elements, depth + 1);
    case Object(members) => MembersFit(members, depth + 1);
  }

  lemma {:induction false} ElementsFit(elements: seq<Json>, depth: nat)
    requires depth > 0
    ensures (forall i :: 0 <= i < |elements| ==> Fits(elements[i], depth)) <==>
            elements == [] || depth - 1 + ElementsHeight(elements) <= LIMIT
    decreases elements
  {
    if elements != [] {
      FitsIsHeight(elements[0], depth);
      ElementsFit(elements[1..], depth);
      assert forall i :: 1 <= i < |elements| ==> elements[i] == elements[1..][i - 1];
      assert forall i :: 0 <= i < |elements[1..]| ==> elements[1..][i] == elements[i + 1];
    }
  }

  lemma {:induction false} MembersFit(members: seq<Member>, depth: nat)
    requires depth > 0
    ensures (forall i :: 0 <= i < |members| ==> depth <= LIMIT && Fits(members[i].value, depth)) <==>
            members == [] || depth - 1 + MembersHeight(members) <= LIMIT
    decreases members
  {
    if members != [] {
      FitsIsHeight(members[0].value, depth);
      MembersFit(members[1..], depth);
      assert forall i :: 1 <= i < |members| ==> members[i] == members[1..][i - 1];
      assert forall i :: 0 <= i < |members[1..]| ==> members[1..][i] == members[i + 1];
    }
  }

  // ------------------------------------------------------------------ the loop

  /** The decoder: the tokens left, the open containers, and whether the input
      goes wrong after the last token. */
  class Decoder {
    const tokens: seq<Token>
    const malformed: bool
    var position: nat
    var depth: int

    ghost predicate Valid()
      reads this
    {
      position <= |tokens| && depth == DepthBefore(tokens, position)
    }

    constructor (tokens: seq<Token>, malformed: bool)
      ensures Valid() && position == 0 && this.tokens == tokens && this.malformed == malformed
    {
      this.tokens, this.malformed := tokens, malformed;
      position, depth := 0, 0;
    }

    method ReadToken() returns (next: Next)
      requires Valid()
      modifies this
      ensures Valid()
      ensures old(position) < |tokens| ==> next == Got(tokens[old(position)]) && position == old(position) + 1
      ensures old(position) == |tokens| ==> next == (if malformed then Malformed else Eof) && position == old(position)
    {
      if position == |tokens| {
        return if malformed then Malformed else Eof;
      }
      next := Got(tokens[position]);
      depth := depth + Change(tokens[position]);
      position := position + 1;
    }
  }

  datatype Next = Got(token: Token) | Eof | Malformed

  function DepthBefore(tokens: seq<Token>, i: nat): int
    requires i <= |tokens|
  {
    if i == 0 then 0 else DepthBefore(tokens, i - 1) + Change(tokens[i - 1])
  }

  predicate TokenFits(token: Token, depth: int) {
    depth <= LIMIT || Closes(token)
  }

  /** No token but a closing one lies beyond the limit. */
  ghost predicate AllFit(tokens: seq<Token>) {
    forall i :: 0 <= i < |tokens| ==> TokenFits(tokens[i], DepthBefore(tokens, i))
  }

  /** `startsObject` says that the first character is an opening brace, `decodes`
      that the strict decoder accepts the whole text. */
  method StrictJson(startsObject: bool, tokens: seq<Token>, malformed: bool, decodes: bool) returns (ok: bool)
    ensures ok <==> startsObject && !malformed && AllFit(tokens) && decodes
  {
    if !startsObject {
      return false;
    }
    var decoder := new Decoder(tokens, malformed);
    while true
      invariant decoder.Valid() && fresh(decoder) && decoder.tokens == tokens && decoder.malformed == malformed
      invariant forall i :: 0 <= i < decoder.position ==> TokenFits(tokens[i], DepthBefore(tokens, i))
      decreases |tokens| - decoder.position
    {
      var depth := decoder.depth;
      var next := decoder.ReadToken();
      match next
      case Eof => return decodes;
      case Malformed => return false;
      case Got(token) =>
        if depth > LIMIT && !Closes(token) {
          return false;
        }
    }
  }

  // ------------------------------------------------------------- refinement

  /** The pass over the tokens from `depth` open containers on. */
  predicate Passes(tokens: seq<Token>, depth: int) {
    tokens == [] || (TokenFits(tokens[0], depth) && Passes(tokens[1..], depth + Change(tokens[0])))
  }

  /** Open containers left over. */
  function Net(tokens: seq<Token>): int {
    if tokens == [] then 0 else Change(tokens[0]) + Net(tokens[1..])
  }

  lemma {:induction false} PassesTwoParts(a: seq<Token>, b: seq<Token>, depth: int)
    ensures Passes(a + b, depth) <==> Passes(a, depth) && Passes(b, depth + Net(a))
    ensures Net(a + b) == Net(a) + Net(b)
  {
    if a == [] {
      assert a + b == b;
    } else {
      assert (a + b)[0] == a[0] && (a + b)[1..] == a[1..] + b;
      PassesTwoParts(a[1..], b, depth + Change(a[0]));
    }
  }

  lemma {:induction false} DepthIsNet(tokens: seq<Token>, i: nat)
    requires i <= |tokens|
    ensures DepthBefore(tokens, i) == Net(tokens[..i])
  {
    if i > 0 {
      DepthIsNet(tokens, i - 1);
      assert tokens[..i] == tokens[..i - 1] + [tokens[i - 1]];
      PassesTwoParts(tokens[..i - 1], [tokens[i - 1]], 0);
      assert Net([tokens[i - 1]]) == Change(tokens[i - 1]) + Net([]);
    }
  }

  lemma {:induction false} PassesFromAll(tokens: seq<Token>, i: nat)
    requires i <= |tokens|
    ensures Passes(tokens[i..], DepthBefore(tokens, i)) <==>
            forall j :: i <= j < |tokens| ==> TokenFits(tokens[j], DepthBefore(tokens, j))
    decreases |tokens| - i
  {
    if i < |tokens| {
      PassesFromAll(tokens, i + 1);
      assert tokens[i..][0] == tokens[i] && tokens[i..][1..] == tokens[i + 1..];
      assert DepthBefore(tokens, i + 1) == DepthBefore(tokens, i) + Change(tokens[i]);
    }
  }

  lemma {:induction false} ValuePasses(v: Json, depth: nat)
    ensures Net(Tokens(v)) == 0
    ensures Passes(Tokens(v), depth) <==> Fits(v, depth)
    decreases v
  {
    match v
    case Scalar =>
      assert Tokens(v)[1..] == [];
    case Array(elements) =>
      ElementsPass(elements, depth + 1);
      ContainerPasses(BeginArray, ElementTokens(elements), EndArray, depth);
    case Object(members) =>
      MembersPass(members, depth + 1);
      ContainerPasses(BeginObject, MemberTokens(members), EndObject, depth);
  }

  lemma ContainerPasses(open: Token, inner: seq<Token>, close: Token, depth: nat)
    requires Change(open) == 1 && Closes(close) && Net(inner) == 0
    ensures Net([open] + inner + [close]) == 0
    ensures Passes([open] + inner + [close], depth) <==> depth <= LIMIT && Passes(inner, depth + 1)
  {
    PassesTwoParts([open] + inner, [close], depth);
    PassesTwoParts([open], inner, depth);
    assert [open][1..] == [] && [close][1..] == [];
  }

  lemma {:induction false} ElementsPass(elements: seq<Json>, depth: nat)
    ensures Net(ElementTokens(elements)) == 0
    ensures Passes(ElementTokens(elements), depth) <==> forall i :: 0 <= i < |elements| ==> Fits(elements[i], depth)
    decreases elements
  {
    if elements != [] {
      ValuePasses(elements[0], depth);
      ElementsPass(elements[1..], depth);
      PassesTwoParts(Tokens(elements[0]), ElementTokens(elements[1..]), depth);
      assert forall i :: 1 <= i < |elements| ==> elements[i] == elements[1..][i - 1];
      assert forall i :: 0 <= i < |elements[1..]| ==> elements[1..][i] == elements[i + 1];
    }
  }

  lemma {:induction false} MembersPass(members: seq<Member>, depth: nat)
    ensures Net(MemberTokens(members)) == 0
    ensures Passes(MemberTokens(members), depth) <==>
            forall i :: 0 <= i < |members| ==> depth <= LIMIT && Fits(members[i].value, depth)
    decreases members
  {
    if members != [] {
      var name := [Name(members[0].name)];
      ValuePasses(members[0].value, depth);
      MembersPass(members[1..], depth);
      PassesTwoParts(name + Tokens(members[0].value), MemberTokens(members[1..]), depth);
      PassesTwoParts(name, Tokens(members[0].value), depth);
      assert name[1..] == [];
      assert forall i :: 1 <= i < |members| ==> members[i] == members[1..][i - 1];
      assert forall i :: 0 <= i < |members[1..]| ==> members[1..][i] == members[i + 1];
    }
  }

  /** The token pass accepts a well-formed value exactly when the recursive
      validator does, which is when nothing in it lies deeper than the limit. */
  lemma LoopIsValidator(v: Json)
    ensures AllFit(Tokens(v)) <==> Fits(v, 0)
    ensures Fits(v, 0) <==> Height(v) <= 32
  {
    ValuePasses(v, 0);
    FitsIsHeight(v, 0);
    PassesFromAll(Tokens(v), 0);
    assert Tokens(v)[0..] == Tokens(v);
  }
}

/** The SVG `transform` attribute (SVG 1.1, section 7.15 "The 'transform' attribute") and
  * the accumulation of transforms from a path element up to the document root. */
module Transform {
  import opened Common
  import opened Affine

  /** The six transform functions the tokeniser recognises; no other name reaches the
    * parser. */
  datatype Kind = Matrix | Translate | Scale | Rotate | SkewX | SkewY

  /** One `name(args)` item of a `transform` attribute, as the tokeniser delivers it:
    * the function and its numeric arguments in order. An absent or empty attribute is
    * the empty list of tokens. */
  datatype Token = Token(kind: Kind, vals: seq<real>)

  /** Cosine, sine and tangent of an angle given in degrees; only their place in the
    * matrices matters here. */
  datatype Trig = Trig(cosDeg: real -> real, sinDeg: real -> real, tanDeg: real -> real)

  /** The five transform functions whose first argument is read unconditionally. */
  predicate NeedsArgument(kind: Kind) {
    kind != Matrix
  }

  /** A token that makes the parser fail: it reads `vals[0]` of an empty list. */
  predicate LacksArgument(tok: Token) {
    NeedsArgument(tok.kind) && tok.vals == []
  }

  /** The matrix of one transform function; a `matrix` without exactly six values falls
    * through to the identity. */
  function TokenMatrix(tok: Token, trig: Trig): (r: Result<Mat3>)
    ensures r.Err? <==> LacksArgument(tok)
    ensures r.Err? ==> r.error == MissingArgument
    ensures r.Ok? ==> IsAffine(r.value)
  {
    var v := tok.vals;
    match tok.kind
    case Matrix =>
      if |v| == 6 then Ok(Mat(v[0], v[1], v[2], v[3], v[4], v[5])) else Ok(Identity())
    case Translate =>
      if v == [] then Err(MissingArgument)
      else Ok(Mat(1.0, 0.0, 0.0, 1.0, v[0], if |v| > 1 then v[1] else 0.0))
    case Scale =>
      if v == [] then Err(MissingArgument)
      else Ok(Mat(v[0], 0.0, 0.0, if |v| > 1 then v[1] else v[0], 0.0, 0.0))
    case Rotate =>
      if v == [] then Err(MissingArgument)
      else
        var c, s := trig.cosDeg(v[0]), trig.sinDeg(v[0]);
        Ok(Mat(c, s, -s, c, 0.0, 0.0))
    case SkewX =>
      if v == [] then Err(MissingArgument)
      else Ok(Mat(1.0, 0.0, trig.tanDeg(v[0]), 1.0, 0.0, 0.0))
    case SkewY =>
      if v == [] then Err(MissingArgument)
      else Ok(Mat(1.0, trig.tanDeg(v[0]), 0.0, 1.0, 0.0, 0.0))
  }

  /** `matrix(a b c d e f)` maps (x, y) to (a x + c y + e, b x + d y + f); with any other
    * number of values it is the identity. */
  lemma MatrixMeaning(v: seq<real>, trig: Trig, p: Point)
    ensures var r := TokenMatrix(Token(Matrix, v), trig);
      && (|v| == 6 ==> r.Ok? && Apply(r.value, p) == Point(v[0] * p.x + v[2] * p.y + v[4], v[1] * p.x + v[3] * p.y + v[5]))
      && (|v| != 6 ==> r == Ok(Identity()))
  {
    if |v| == 6 {
      ApplyMat(v[0], v[1], v[2], v[3], v[4], v[5], p);
    }
  }

  /** `translate(tx [ty])` shifts by (tx, ty), with ty = 0 when absent. */
  lemma TranslateMeaning(v: seq<real>, trig: Trig, p: Point)
    requires v != []
    ensures var r := TokenMatrix(Token(Translate, v), trig);
      r.Ok? && Apply(r.value, p) == Point(p.x + v[0], p.y + if |v| > 1 then v[1] else 0.0)
  {
    ApplyMat(1.0, 0.0, 0.0, 1.0, v[0], if |v| > 1 then v[1] else 0.0, p);
  }

  /** `scale(sx [sy])` scales by (sx, sy), with sy = sx when absent. */
  lemma ScaleMeaning(v: seq<real>, trig: Trig, p: Point)
    requires v != []
    ensures var r := TokenMatrix(Token(Scale, v), trig);
      r.Ok? && Apply(r.value, p) == Point(v[0] * p.x, (if |v| > 1 then v[1] else v[0]) * p.y)
  {
    ApplyMat(v[0], 0.0, 0.0, if |v| > 1 then v[1] else v[0], 0.0, 0.0, p);
  }

  /** `rotate(a)` turns about the origin by a degrees; any centre arguments are ignored. */
  lemma RotateMeaning(v: seq<real>, trig: Trig, p: Point)
    requires v != []
    ensures var r, c, s := TokenMatrix(Token(Rotate, v), trig), trig.cosDeg(v[0]), trig.sinDeg(v[0]);
      r.Ok? && Apply(r.value, p) == Point(c * p.x - s * p.y, s * p.x + c * p.y)
  {
    var c, s := trig.cosDeg(v[0]), trig.sinDeg(v[0]);
    ApplyMat(c, s, -s, c, 0.0, 0.0, p);
  }

  /** `skewX(a)` shears x by tan(a) times y; `skewY(a)` shears y by tan(a) times x. */
  lemma SkewMeaning(v: seq<real>, trig: Trig, p: Point)
    requires v != []
    ensures var r, k := TokenMatrix(Token(SkewX, v), trig), trig.tanDeg(v[0]);
      r.Ok? && Apply(r.value, p) == Point(p.x + k * p.y, p.y)
    ensures var r, k := TokenMatrix(Token(SkewY, v), trig), trig.tanDeg(v[0]);
      r.Ok? && Apply(r.value, p) == Point(p.x, k * p.x + p.y)
  {
    ApplyMat(1.0, 0.0, trig.tanDeg(v[0]), 1.0, 0.0, 0.0, p);
    ApplyMat(1.0, trig.tanDeg(v[0]), 0.0, 1.0, 0.0, 0.0, p);
  }

  /** `_parse_transform_attr` as a specification: starting from the identity, each
    * token's matrix is multiplied on the right, left to right through the list. */
  function ComposeTokens(toks: seq<Token>, trig: Trig): (r: Result<Mat3>)
  {
    if toks == [] then Ok(Identity())
    else
      match ComposeTokens(toks[..|toks| - 1], trig)
      case Err(e) => Err(e)
      case Ok(t) =>
        match TokenMatrix(toks[|toks| - 1], trig)
        case Err(e) => Err(e)
        case Ok(m) => Ok(Mul(t, m))
  }

  /** No token of the list lacks its argument. */
  predicate AllParse(toks: seq<Token>) {
    forall i :: 0 <= i < |toks| ==> !LacksArgument(toks[i])
  }

  /** The matrices of a list of tokens none of which fails. */
  function TokenMatrices(toks: seq<Token>, trig: Trig): (ms: seq<Mat3>)
    requires AllParse(toks)
    ensures |ms| == |toks| && AllAffine(ms)
  {
    seq(|toks|, i requires 0 <= i < |toks| => TokenMatrix(toks[i], trig).value)
  }

  /** The parse fails exactly when some token lacks its argument, and then with the
    * error of the first such token; otherwise it is the product of the tokens' matrices
    * in the order written. */
  lemma {:induction false} ComposeIsProduct(toks: seq<Token>, trig: Trig)
    ensures ComposeTokens(toks, trig).Err? <==> !AllParse(toks)
    ensures ComposeTokens(toks, trig).Err? ==> ComposeTokens(toks, trig).error == MissingArgument
    ensures AllParse(toks) ==> ComposeTokens(toks, trig) == Ok(Product(TokenMatrices(toks, trig)))
  {
    if toks != [] {
      var init, last := toks[..|toks| - 1], toks[|toks| - 1];
      ComposeIsProduct(init, trig);
      if AllParse(toks) {
        assert AllParse(init);
        var ms := TokenMatrices(toks, trig);
        assert ms[..|toks| - 1] == TokenMatrices(init, trig);
        assert ms[|toks| - 1] == TokenMatrix(last, trig).value;
        assert Product(ms) == Mul(Product(TokenMatrices(init, trig)), TokenMatrix(last, trig).value);
      } else if AllParse(init) {
        assert LacksArgument(last);
      }
    }
  }

  /** Successive transforms nest: the last one written acts on the point first. With no
    * token at all the result is the identity. */
  lemma ComposeApplies(toks: seq<Token>, trig: Trig, p: Point)
    requires AllParse(toks)
    ensures ComposeTokens(toks, trig).Ok?
    ensures IsAffine(ComposeTokens(toks, trig).value)
    ensures Apply(ComposeTokens(toks, trig).value, p) == ApplyEach(TokenMatrices(toks, trig), p)
  {
    ComposeIsProduct(toks, trig);
    ProductApplies(TokenMatrices(toks, trig), p);
  }

  /** `_parse_transform_attr`: accumulates `T = mul(T, M)` over the tokens. */
  method ParseTransformAttr(toks: seq<Token>, trig: Trig) returns (r: Result<Mat3>)
    ensures r == ComposeTokens(toks, trig)
    ensures r.Err? <==> exists i :: 0 <= i < |toks| && LacksArgument(toks[i])
    ensures toks == [] ==> r == Ok(Identity())
  {
    ComposeIsProduct(toks, trig);
    var t := Identity();
    var i := 0;
    while i < |toks|
      invariant 0 <= i <= |toks|
      invariant ComposeTokens(toks[..i], trig) == Ok(t)
    {
      var m := TokenMatrix(toks[i], trig);
      if m.Err? {
        assert LacksArgument(toks[i]) && !AllParse(toks);
        return Err(m.error);
      }
      assert toks[..i + 1][..i] == toks[..i];
      t := Mul(t, m.value);
      i := i + 1;
    }
    assert toks[..i] == toks;
    r := Ok(t);
  }

  /** The transforms of an element and its ancestors, parsed in that order (the node
    * first, the root last); the first attribute that fails decides the error. */
  function ParseChain(attrs: seq<seq<Token>>, trig: Trig): (r: Result<seq<Mat3>>)
    ensures r.Err? <==> exists i :: 0 <= i < |attrs| && ComposeTokens(attrs[i], trig).Err?
    ensures r.Err? ==> r.error == MissingArgument
    ensures r.Ok? ==> |r.value| == |attrs|
    ensures r.Ok? ==> forall i :: 0 <= i < |attrs| ==> ComposeTokens(attrs[i], trig) == Ok(r.value[i])
  {
    if attrs == [] then Ok([])
    else
      ComposeIsProduct(attrs[0], trig);
      match ComposeTokens(attrs[0], trig)
      case Err(e) => Err(e)
      case Ok(m) =>
        match ParseChain(attrs[1..], trig)
        case Err(e) => Err(e)
        case Ok(ms) => Ok([m] + ms)
  }

  /** The world transform of a chain listed from the node up to the root:
    * ((I * root) * ...) * node. */
  function WorldProduct(chain: seq<Mat3>): Mat3 {
    if chain == [] then Identity() else Mul(WorldProduct(chain[1..]), chain[0])
  }

  /** Reference meaning of a chain: the node's own transform first, then its parent's,
    * up to the root's ("closest first applied"). */
  function ApplyUp(chain: seq<Mat3>, p: Point): Point {
    if chain == [] then p else ApplyUp(chain[1..], Apply(chain[0], p))
  }

  function Reverse<T>(s: seq<T>): (r: seq<T>)
    ensures |r| == |s|
  {
    if s == [] then [] else Reverse(s[1..]) + [s[0]]
  }

  /** The world transform applies the node's own transform first and the root's last. */
  lemma {:induction false} WorldApplies(chain: seq<Mat3>, p: Point)
    requires AllAffine(chain)
    ensures IsAffine(WorldProduct(chain))
    ensures Apply(WorldProduct(chain), p) == ApplyUp(chain, p)
  {
    if chain != [] {
      WorldApplies(chain[1..], Apply(chain[0], p));
      ApplyMul(WorldProduct(chain[1..]), chain[0], p);
    }
  }

  /** The world transform is the product of the per-node matrices ordered from the root
    * down to the node. */
  lemma {:induction false} WorldIsRootFirst(chain: seq<Mat3>)
    ensures WorldProduct(chain) == Product(Reverse(chain))
  {
    if chain != [] {
      var rev := Reverse(chain);
      assert rev[..|rev| - 1] == Reverse(chain[1..]);
      WorldIsRootFirst(chain[1..]);
    }
  }

  /** `world_transform` as a specification. */
  function WorldSpec(attrs: seq<seq<Token>>, trig: Trig): Result<Mat3> {
    match ParseChain(attrs, trig)
    case Err(e) => Err(e)
    case Ok(chain) => Ok(WorldProduct(chain))
  }

  /** `world_transform`: parses the attribute of the node and of each ancestor up to the
    * root (`attrs` in that order), then folds `T = mul(T, M)` over the reversed chain. */
  method WorldTransform(attrs: seq<seq<Token>>, trig: Trig) returns (r: Result<Mat3>)
    ensures r == WorldSpec(attrs, trig)
    ensures r.Err? <==> exists i, j :: 0 <= i < |attrs| && 0 <= j < |attrs[i]| && LacksArgument(attrs[i][j])
  {
    var chain: seq<Mat3> := [];
    var i := 0;
    while i < |attrs|
      invariant 0 <= i <= |attrs| && |chain| == i
      invariant forall k :: 0 <= k < i ==> ComposeTokens(attrs[k], trig) == Ok(chain[k])
    {
      var m := ParseTransformAttr(attrs[i], trig);
      if m.Err? {
        ComposeIsProduct(attrs[i], trig);
        var j :| 0 <= j < |attrs[i]| && LacksArgument(attrs[i][j]);
        return Err(m.error);
      }
      chain := chain + [m.value];
      i := i + 1;
    }
    assert ParseChain(attrs, trig).value == chain;
    var t := Identity();
    var k := |chain|;
    while k > 0
      invariant 0 <= k <= |chain|
      invariant t == WorldProduct(chain[k..])
    {
      k := k - 1;
      assert chain[k..][1..] == chain[k + 1..];
      t := Mul(t, chain[k]);
    }
    r := Ok(t);
    forall i, j | 0 <= i < |attrs| && 0 <= j < |attrs[i]|
      ensures !LacksArgument(attrs[i][j])
    {
      ComposeIsProduct(attrs[i], trig);
    }
  }
}

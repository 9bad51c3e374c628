/** The language of Json::parse: whole documents. */
module JsonDocument {
  import opened Bytes
  import opened JsonValue
  import opened JsonGrammar
  import opened JsonSyntax
  import opened JsonLexical
  import opened JsonCorrect

  lemma EndGapEndsNumber(st: Strategy, w: bytes)
    requires IsEndGap(st, w)
    ensures NumberEnds(w)
  {
    if w != [] {
      if IsGap(st, w) {
        GapStart(st, w);
      } else {
        var k :| 0 <= k <= |w| && IsGap(st, w[..k]) && IsOpenLine(w[k..]);
        if k > 0 {
          GapStart(st, w[..k]);
        }
      }
    }
  }

  lemma DocumentSound(st: Strategy, s: bytes) returns (d: Document)
    requires ParseDocument(st, s).Ok?
    ensures DocumentOk(st, d) && DocumentText(d) == s
    ensures d.value == ParseDocument(st, s).v && Height(d.value) <= 200
  {
    hide Bare, Text, Height, CstOk, TokenAt, SkipGap, IsEndGap;
    var pre, t := TokenSound(st, s);
    BareSound(st, t, 0);
    var Ok(c, r) := Bare(st, t, 0);
    SkipGapSound(st, r);
    Rejoin(r, []);
    d := Document(pre, c, Consumed(r, []));
    assert r == d.post;
    Assoc(pre, Text(c), r);
  }

  /** A document parses to its tree if the tree is low enough, and fails as too deep otherwise. */
  lemma DocumentComplete(st: Strategy, d: Document)
    requires DocumentOk(st, d)
    ensures ParseDocument(st, DocumentText(d))
         == if Height(d.value) <= 200 then Ok(d.value, []) else Fail(TooDeep)
  {
    hide Bare, Text, Height, CstOk, TokenAt, SkipGap, IsEndGap, IsGap;
    var t := Text(d.value) + d.post;
    Assoc(d.pre, Text(d.value), d.post);
    TextStart(st, d.value, d.post);
    TokenAfterGap(st, d.pre, t);
    EndGapEndsNumber(st, d.post);
    BareComplete(st, d.value, d.post, 0);
    SkipEndGapComplete(st, d.post);
  }

  /** Json::parse accepts exactly the grammar with nesting of at most 200. */
  lemma AcceptsExactlyTheGrammar(st: Strategy, s: bytes)
    ensures ParseDocument(st, s).Ok?
       <==> exists d :: DocumentOk(st, d) && DocumentText(d) == s && Height(d.value) <= 200
  {
    if ParseDocument(st, s).Ok? {
      var d := DocumentSound(st, s);
    }
    forall d | DocumentOk(st, d) && DocumentText(d) == s && Height(d.value) <= 200
      ensures ParseDocument(st, s).Ok?
    {
      DocumentComplete(st, d);
    }
  }

  /** A text within the limit has one tree only, and no taller tree has the same text. */
  lemma GrammarIsUnambiguous(st: Strategy, d: Document, e: Document)
    requires DocumentOk(st, d) && DocumentOk(st, e) && DocumentText(d) == DocumentText(e)
    requires Height(d.value) <= 200
    ensures d.value == e.value
  {
    DocumentComplete(st, d);
    DocumentComplete(st, e);
  }

  /** Any run of spaces, tabs, line feeds and carriage returns in front changes nothing. */
  lemma WhiteSpaceIsSkipped(st: Strategy, run: bytes, s: bytes)
    requires forall k | 0 <= k < |run| :: run[k] == 0x20 || run[k] == 0x09 || run[k] == 0x0a || run[k] == 0x0d
    ensures ParseDocument(st, run + s) == ParseDocument(st, s)
  {
    hide SkipGap, IsGap, Bare;
    RunIsGap(st, run);
    SkipGapComplete(st, run, s);
  }

  lemma {:induction false} RunIsGap(st: Strategy, run: bytes)
    requires forall k | 0 <= k < |run| :: run[k] == 0x20 || run[k] == 0x09 || run[k] == 0x0a || run[k] == 0x0d
    ensures IsGap(st, run)
  {
    hide IsGap;
    if run == [] {
      GapEmpty(st);
    } else {
      GapPiece(st, [run[0]]);
      RunIsGap(st, run[1..]);
      GapConcat(st, [run[0]], run[1..]);
      assert run == [run[0]] + run[1..];
    }
  }

  // ---- Comments extend the standard grammar ----

  lemma StandardGap(w: bytes)
    requires IsGap(Standard, w)
    ensures IsGap(Comments, w)
  {
    var ps :| GapPieces(Standard, ps) && Concat(ps) == w;
    assert forall k | 0 <= k < |ps| :: IsGapPiece(Standard, ps[k]);
    assert GapPieces(Comments, ps);
  }

  lemma {:induction false} StandardTree(c: Cst)
    requires CstOk(Standard, c)
    ensures CstOk(Comments, c)
    decreases c, 1
  {
    match c
    case CArrEmpty(g) => StandardGap(g);
    case CObjEmpty(g) => StandardGap(g);
    case CArr(items) => StandardItems(items);
    case CObj(ms) => StandardMembers(ms);
    case _ =>
  }

  lemma {:induction false} StandardItems(items: seq<CItem>)
    requires ItemsOk(Standard, items)
    ensures ItemsOk(Comments, items)
    decreases items, 0
  {
    if items != [] {
      StandardGap(items[0].pre);
      StandardTree(items[0].value);
      StandardGap(items[0].post);
      StandardItems(items[1..]);
    }
  }

  lemma {:induction false} StandardMembers(ms: seq<CMember>)
    requires MembersOk(Standard, ms)
    ensures MembersOk(Comments, ms)
    decreases ms, 0
  {
    if ms != [] {
      StandardGap(ms[0].pre);
      StandardGap(ms[0].mid);
      StandardGap(ms[0].gap);
      StandardTree(ms[0].value);
      StandardGap(ms[0].post);
      StandardMembers(ms[1..]);
    }
  }

  /** Allowing comments changes no answer on input that is accepted without them. */
  lemma CommentsExtendStandard(s: bytes)
    requires ParseDocument(Standard, s).Ok?
    ensures ParseDocument(Comments, s) == ParseDocument(Standard, s)
  {
    var d := DocumentSound(Standard, s);
    StandardGap(d.pre);
    StandardTree(d.value);
    StandardGap(d.post);
    DocumentComplete(Comments, d);
  }

  // ---- Repeated keys ----

  /** For every key of an accepted object, the value is that of its last member. */
  lemma LastDuplicateKeyWins(ms: seq<CMember>, key: bytes)
    requires ms != []
    ensures Value(CObj(ms)).Obj? && SortedKeys(Value(CObj(ms)).members)
    ensures Find(Value(CObj(ms)).members, key) == LastValue(MemberValues(ms), key)
  {
    MapOfCorrect(MemberValues(ms), key);
  }
}

/**
 * The link catalog: a map from category key to the ordered records of that
 * category, the built-in default catalog `LINKS_PADRAO`, and the two updates
 * the dashboard performs on it (flip a favourite flag, append a new link),
 * stated as functions on catalog values with the invariants they keep.
 */
module LinkCatalog {

  /** One bookmarked link: `{id, nome, url, fav}`. */
  datatype Link = Link(id: string, nome: string, url: string, fav: bool)

  /** Category key to its records, in display order. */
  type Catalog = map<string, seq<Link>>

  /** The three categories the dashboard renders and offers in the add-link form. */
  const Categories: seq<string> := ["fiscal", "trabalhista", "juridico"]

  /** The default records of the "fiscal" category. */
  const FiscalPadrao: seq<Link> := [
    Link("f1", "🏢 Certidão Federal", "https://servicos.receitafederal.gov.br/servico/certidoes/#/home/cnpj", false),
    Link("f2", "🏢 Receita (CNPJ)", "https://solucoes.receita.fazenda.gov.br/Servicos/cnpjreva/cnpjreva_solicitacao.asp", true),
    Link("f3", "🏦 Caixa (FGTS)", "https://consulta-crf.caixa.gov.br/consultacrf/pages/consultaEmpregador.jsf", false),
    Link("f4", "🏙️ Pref. SP (DUC)", "https://duc.prefeitura.sp.gov.br/certidoes/forms_anonimo/frmConsultaEmissaoCertificado.aspx", false),
    Link("f5", "📍 Sefaz SP (Estadual)", "https://www10.fazenda.sp.gov.br/CertidaoNegativaDeb/Pages/EmissaoCertidaoNegativa.aspx", false),
    Link("f6", "📂 Jucesp (Ficha)", "https://www.jucesponline.sp.gov.br/Default.aspx", true)
  ]

  /** The default records of the "trabalhista" category. */
  const TrabalhistaPadrao: seq<Link> := [
    Link("t1", "👷 TST (CNDT Nacional)", "https://cndt-certidao.tst.jus.br/inicio.faces", false),
    Link("t2", "⚖️ TRT-2 (Regional SP)", "https://pje.trt2.jus.br/certidoes/trabalhista/emissao", false)
  ]

  /** The default records of the "juridico" category. */
  const JuridicoPadrao: seq<Link> := [
    Link("j1", "🏛️ Falência TJSP", "https://esaj.tjsp.jus.br/sco/abrirCadastro.do", false),
    Link("j2", "⚖️ TRF-3 (Federal)", "https://web.trf3.jus.br/certidao-regional/CertidaoCivelEleitoralCriminal/SolicitarDadosCertidao", false),
    Link("j3", "🚫 Protesto (IEPTB)", "https://protestosp.com.br/consulta-de-protesto", true)
  ]

  /** `LINKS_PADRAO`: the catalog used when no saved catalog can be read. */
  const LinksPadrao: Catalog :=
    map["fiscal" := FiscalPadrao, "trabalhista" := TrabalhistaPadrao, "juridico" := JuridicoPadrao]

  /** The outcome of reading the saved catalog: absent or unreadable, or the catalog read. */
  datatype ReadResult = Unreadable | Read(catalog: Catalog)

  /** `carregar_dados`: the catalog read, or the default one when the read failed. */
  function Load(r: ReadResult): Catalog {
    match r
    case Unreadable => LinksPadrao
    case Read(c) => c
  }

  /** Every id of the catalog. */
  function AllIds(c: Catalog): set<string> {
    set k, i | k in c && 0 <= i < |c[k]| :: c[k][i].id
  }

  /** No two records of the catalog, in the same or different categories, share an id. */
  ghost predicate UniqueIds(c: Catalog) {
    forall k1, i1, k2, i2 ::
      k1 in c && k2 in c && 0 <= i1 < |c[k1]| && 0 <= i2 < |c[k2]| && c[k1][i1].id == c[k2][i2].id
      ==> k1 == k2 && i1 == i2
  }

  /** The three rendered categories are all present. */
  predicate HasCategories(c: Catalog) {
    forall k :: k in Categories ==> k in c
  }

  /** Two catalogs have the same categories with the same number of records in each. */
  predicate SameShape(c: Catalog, d: Catalog) {
    c.Keys == d.Keys && forall k :: k in c ==> |c[k]| == |d[k]|
  }

  /** The catalog with the favourite flag of record `i` of category `cat` negated. */
  function ToggleFav(c: Catalog, cat: string, i: nat): (d: Catalog)
    requires cat in c && i < |c[cat]|
    ensures SameShape(c, d)
    ensures d[cat][i] == c[cat][i].(fav := !c[cat][i].fav)
    ensures forall k, j :: k in c && 0 <= j < |c[k]| && (k != cat || j != i) ==> d[k][j] == c[k][j]
  {
    c[cat := c[cat][i := c[cat][i].(fav := !c[cat][i].fav)]]
  }

  /** The catalog with `link` appended at the end of category `cat`. */
  function Append(c: Catalog, cat: string, link: Link): (d: Catalog)
    requires cat in c
    ensures d.Keys == c.Keys
    ensures |d[cat]| == |c[cat]| + 1 && d[cat][|c[cat]|] == link
    ensures d[cat][..|c[cat]|] == c[cat]
    ensures forall k :: k in c && k != cat ==> d[k] == c[k]
  {
    c[cat := c[cat] + [link]]
  }

  /** The record the add-link form creates: never a favourite. */
  function NewLink(id: string, nome: string, url: string): Link {
    Link(id, nome, url, false)
  }

  /** Whether the add-link form accepts its input: name and URL both non-empty. */
  predicate Accepts(nome: string, url: string) {
    nome != "" && url != ""
  }

  /** The whole add-link step: append the new record when the input is accepted, else no change. */
  function AddLink(c: Catalog, cat: string, id: string, nome: string, url: string): Catalog
    requires cat in c
  {
    if Accepts(nome, url) then Append(c, cat, NewLink(id, nome, url)) else c
  }

  // ---------------------------------------------------------------------------
  // Lemmas

  /** Flipping the same flag twice gives back the original catalog. */
  lemma ToggleTwice(c: Catalog, cat: string, i: nat)
    requires cat in c && i < |c[cat]|
    ensures ToggleFav(ToggleFav(c, cat, i), cat, i) == c
  {
    var d: Catalog := ToggleFav(ToggleFav(c, cat, i), cat, i);
    assert d[cat] == c[cat];
    assert d.Keys == c.Keys;
  }

  /** Flipping a flag keeps every id in place, so uniqueness is kept. */
  lemma ToggleKeepsIds(c: Catalog, cat: string, i: nat)
    requires cat in c && i < |c[cat]|
    ensures AllIds(ToggleFav(c, cat, i)) == AllIds(c)
    ensures UniqueIds(c) ==> UniqueIds(ToggleFav(c, cat, i))
  {
    var d: Catalog := ToggleFav(c, cat, i);
    assert forall k: string, j: int :: k in c && 0 <= j < |c[k]| ==> d[k][j].id == c[k][j].id;
    forall x | x in AllIds(d) ensures x in AllIds(c) {
      var k: string, j: int :| k in d && 0 <= j < |d[k]| && d[k][j].id == x;
      assert c[k][j].id == x;
    }
    forall x | x in AllIds(c) ensures x in AllIds(d) {
      var k: string, j: int :| k in c && 0 <= j < |c[k]| && c[k][j].id == x;
      assert d[k][j].id == x;
    }
  }

  /** Reading back a saved catalog gives that catalog: loading after saving changes nothing. */
  lemma LoadAfterSave(c: Catalog)
    ensures Load(Read(c)) == c
  {
  }

  /**
   * The add-link step on the catalog itself: an accepted add makes the chosen
   * category one record longer, with `{id, nome, url, fav: false}` last, and
   * keeps every earlier record and every other category; a rejected add
   * returns the catalog unchanged.
   */
  lemma AddLinkEffect(c: Catalog, cat: string, id: string, nome: string, url: string)
    requires cat in c
    ensures var d := AddLink(c, cat, id, nome, url);
            && d.Keys == c.Keys
            && (nome == "" || url == "" ==> d == c)
            && (nome != "" && url != "" ==>
                  && |d[cat]| == |c[cat]| + 1
                  && d[cat][|c[cat]|] == Link(id, nome, url, false)
                  && (forall j :: 0 <= j < |c[cat]| ==> d[cat][j] == c[cat][j])
                  && (forall k :: k in c && k != cat ==> d[k] == c[k]))
  {
    var d := AddLink(c, cat, id, nome, url);
    if Accepts(nome, url) {
      assert forall j :: 0 <= j < |c[cat]| ==> d[cat][j] == d[cat][..|c[cat]|][j];
    }
  }

  /** Appending a record adds exactly its id to the set of ids. */
  lemma AppendIds(c: Catalog, cat: string, link: Link)
    requires cat in c
    ensures AllIds(Append(c, cat, link)) == AllIds(c) + {link.id}
  {
    var d: Catalog := Append(c, cat, link);
    forall x | x in AllIds(d) ensures x in AllIds(c) + {link.id} {
      var k: string, j: int :| k in d && 0 <= j < |d[k]| && d[k][j].id == x;
      if k != cat || j < |c[cat]| {
        assert c[k][j] == d[k][j];
      }
    }
    forall x | x in AllIds(c) ensures x in AllIds(d) {
      var k: string, j: int :| k in c && 0 <= j < |c[k]| && c[k][j].id == x;
      if k == cat {
        assert d[cat][..|c[cat]|][j] == d[k][j];
      }
      assert d[k][j].id == x;
    }
    assert d[cat][|c[cat]|].id == link.id;
  }

  /** Appending a record with a fresh id keeps every id unique. */
  lemma AppendKeepsUnique(c: Catalog, cat: string, link: Link)
    requires cat in c
    requires UniqueIds(c)
    requires link.id !in AllIds(c)
    ensures UniqueIds(Append(c, cat, link))
  {
    var d: Catalog := Append(c, cat, link);
    var n := |c[cat]|;
    forall k1: string, i1: int, k2: string, i2: int |
      k1 in d && k2 in d && 0 <= i1 < |d[k1]| && 0 <= i2 < |d[k2]| && d[k1][i1].id == d[k2][i2].id
      ensures k1 == k2 && i1 == i2
    {
      var new1 := k1 == cat && i1 == n;
      var new2 := k2 == cat && i2 == n;
      if !new1 {
        assert d[k1][i1] == c[k1][i1] by {
          if k1 == cat { assert d[cat][..n][i1] == d[cat][i1]; }
        }
        assert d[k1][i1].id in AllIds(c);
      }
      if !new2 {
        assert d[k2][i2] == c[k2][i2] by {
          if k2 == cat { assert d[cat][..n][i2] == d[cat][i2]; }
        }
        assert d[k2][i2].id in AllIds(c);
      }
    }
  }

  /** The add-link step keeps ids unique when the id it is given is fresh. */
  lemma AddLinkKeepsUnique(c: Catalog, cat: string, id: string, nome: string, url: string)
    requires cat in c
    requires UniqueIds(c)
    requires id !in AllIds(c)
    ensures UniqueIds(AddLink(c, cat, id, nome, url))
    ensures Accepts(nome, url) ==> AllIds(AddLink(c, cat, id, nome, url)) == AllIds(c) + {id}
  {
    if Accepts(nome, url) {
      AppendKeepsUnique(c, cat, NewLink(id, nome, url));
      AppendIds(c, cat, NewLink(id, nome, url));
    }
  }

  /** Every id is the category's initial followed by the record's 1-based position (a single digit). */
  ghost predicate PositionalIds(c: Catalog) {
    forall k, i :: k in c && 0 <= i < |c[k]| ==> Positional(k, c[k], i)
  }

  /** Record `i` of `links` has id `k[0]` followed by the digit `i + 1`. */
  ghost predicate Positional(k: string, links: seq<Link>, i: int)
    requires 0 <= i < |links|
  {
    |k| > 0 && i < 9 && links[i].id == [k[0], ('1' as int + i) as char]
  }

  lemma FiscalIdsArePositional()
    ensures forall i :: 0 <= i < |FiscalPadrao| ==> Positional("fiscal", FiscalPadrao, i)
  {
  }

  lemma TrabalhistaIdsArePositional()
    ensures forall i :: 0 <= i < |TrabalhistaPadrao| ==> Positional("trabalhista", TrabalhistaPadrao, i)
  {
  }

  lemma JuridicoIdsArePositional()
    ensures forall i :: 0 <= i < |JuridicoPadrao| ==> Positional("juridico", JuridicoPadrao, i)
  {
  }

  lemma DefaultIdsArePositional()
    ensures PositionalIds(LinksPadrao)
  {
    FiscalIdsArePositional();
    TrabalhistaIdsArePositional();
    JuridicoIdsArePositional();
  }

  /** The default catalog has the three categories and eleven distinct ids. */
  lemma DefaultIsWellFormed()
    ensures HasCategories(LinksPadrao)
    ensures UniqueIds(LinksPadrao)
  {
    DefaultIdsArePositional();
    var c: Catalog := LinksPadrao;
    forall k1, i1, k2, i2 |
      k1 in c && k2 in c && 0 <= i1 < |c[k1]| && 0 <= i2 < |c[k2]| && c[k1][i1].id == c[k2][i2].id
      ensures k1 == k2 && i1 == i2
    {
      assert Positional(k1, c[k1], i1) && Positional(k2, c[k2], i2);
      assert c[k1][i1].id[0] == k1[0] && c[k2][i2].id[0] == k2[0];
      assert c[k1][i1].id[1] == ('1' as int + i1) as char && c[k2][i2].id[1] == ('1' as int + i2) as char;
    }
  }
}

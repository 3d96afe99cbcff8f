/**
 * The dashboard's session state: the catalog held in memory (`dados`) and the
 * content of the data file (`salvo`), which every change of the catalog
 * overwrites with the whole catalog. The methods are the catalog operations of
 * the page: flip a favourite, add a link, list a category's matching records,
 * decide whether a category heading is shown, and decide whether the
 * "nothing found" warning appears.
 */
module Dashboard {
  import opened LinkCatalog
  import opened LinkFilter

  class Store {
    /** The catalog of the session. */
    var dados: Catalog
    /** What reading the data file would give now. */
    var salvo: ReadResult

    /** The data file holds exactly the catalog in memory. */
    predicate Saved()
      reads this
    {
      salvo == Read(dados)
    }

    /** Session start: load the catalog from what reading the data file gave. */
    constructor (lido: ReadResult)
      ensures dados == Load(lido)
      ensures salvo == lido
      ensures lido.Unreadable? ==> HasCategories(dados) && UniqueIds(dados)
    {
      dados := Load(lido);
      salvo := lido;
      DefaultIsWellFormed();
    }

    /** `salvar_dados`: overwrite the data file with the whole catalog. */
    method Save()
      modifies this`salvo
      ensures Saved()
      ensures Load(salvo) == dados
    {
      salvo := Read(dados);
      LoadAfterSave(dados);
    }

    /** `toggle_favorito`: negate one record's favourite flag in place, then save. */
    method ToggleFavorite(categoria: string, index: nat)
      requires categoria in dados && index < |dados[categoria]|
      modifies this
      ensures dados == ToggleFav(old(dados), categoria, index)
      ensures dados[categoria][index].fav == !old(dados)[categoria][index].fav
      ensures AllIds(dados) == AllIds(old(dados))
      ensures UniqueIds(old(dados)) ==> UniqueIds(dados)
      ensures Saved()
    {
      var links := dados[categoria];
      var link := links[index];
      dados := dados[categoria := links[index := link.(fav := !link.fav)]];
      ToggleKeepsIds(old(dados), categoria, index);
      Save();
    }

    /**
     * The add-link form: when name and URL are both non-empty, append a new
     * non-favourite record with the given fresh id to the chosen category and
     * save; otherwise change nothing.
     */
    method AddLink(categoria: string, id: string, nome: string, url: string) returns (adicionado: bool)
      requires categoria in dados
      requires id !in AllIds(dados)
      modifies this
      ensures adicionado <==> nome != "" && url != ""
      ensures dados == LinkCatalog.AddLink(old(dados), categoria, id, nome, url)
      ensures adicionado ==> Saved() && AllIds(dados) == AllIds(old(dados)) + {id}
      ensures !adicionado ==> salvo == old(salvo)
      ensures UniqueIds(old(dados)) ==> UniqueIds(dados)
    {
      adicionado := false;
      if nome != "" && url != "" {
        var novo := Link(id, nome, url, false);
        dados := dados[categoria := dados[categoria] + [novo]];
        Save();
        adicionado := true;
      }
      if UniqueIds(old(dados)) {
        AddLinkKeepsUnique(old(dados), categoria, id, nome, url);
      }
      if adicionado {
        AppendIds(old(dados), categoria, NewLink(id, nome, url));
      }
    }

    /**
     * The filter loop of a category view: `(index, record)` for every record
     * whose name or URL contains the term, case-insensitively, and that is a
     * favourite when only favourites are asked for. A missing category has none.
     */
    method FilterCategory(chave: string, termo: string, soFavoritos: bool) returns (filtrados: seq<(nat, Link)>)
      ensures chave !in dados ==> filtrados == []
      ensures chave in dados ==> filtrados == Filtered(dados[chave], termo, soFavoritos)
    {
      var links := if chave in dados then dados[chave] else [];
      var busca := Lower(termo);
      filtrados := [];
      var idx := 0;
      while idx < |links|
        invariant 0 <= idx <= |links|
        invariant filtrados == Filtered(links[..idx], termo, soFavoritos)
      {
        var link := links[idx];
        var matchBusca := Contains(Lower(link.nome), busca) || Contains(Lower(link.url), busca);
        var matchFav := if soFavoritos then link.fav else true;
        assert matchBusca && matchFav <==> Keep(link, termo, soFavoritos);
        FilteredStep(links, idx, termo, soFavoritos);
        if matchBusca && matchFav {
          filtrados := filtrados + [(idx, link)];
        }
        idx := idx + 1;
      }
      assert links[..idx] == links;
    }

    /**
     * Whether a category heading is drawn: after filtering, an empty view is
     * hidden when a term is typed or only favourites are asked for.
     */
    method CategoryShown(chave: string, termo: string, soFavoritos: bool) returns (mostrada: bool, filtrados: seq<(nat, Link)>)
      ensures chave in dados ==> filtrados == Filtered(dados[chave], termo, soFavoritos)
      ensures chave !in dados ==> filtrados == []
      ensures mostrada <==>
                (termo == "" && !soFavoritos)
                || (chave in dados && exists i :: 0 <= i < |dados[chave]| && Keep(dados[chave][i], termo, soFavoritos))
    {
      filtrados := FilterCategory(chave, termo, soFavoritos);
      if chave in dados {
        FilteredEmptyIff(dados[chave], termo, soFavoritos);
      }
      if filtrados == [] && termo != "" {
        return false, filtrados;
      }
      if filtrados == [] && soFavoritos {
        return false, filtrados;
      }
      mostrada := true;
    }

    /**
     * `todos_vazios`: true until some record of the three categories matches
     * the term and the favourites switch; the scan of a category stops at its
     * first match.
     */
    method AllEmpty(termo: string, soFavoritos: bool) returns (todosVazios: bool)
      requires HasCategories(dados)
      ensures todosVazios <==>
                forall c :: 0 <= c < |Categories| ==> Filtered(dados[Categories[c]], termo, soFavoritos) == []
    {
      var busca := Lower(termo);
      todosVazios := true;
      var c := 0;
      while c < |Categories|
        invariant 0 <= c <= |Categories|
        invariant todosVazios <==>
                    forall j :: 0 <= j < c ==> Filtered(dados[Categories[j]], termo, soFavoritos) == []
      {
        var items := dados[Categories[c]];
        ghost var antes := todosVazios;
        var i := 0;
        while i < |items|
          invariant 0 <= i <= |items|
          invariant todosVazios == antes
          invariant forall m :: 0 <= m < i ==> !Keep(items[m], termo, soFavoritos)
        {
          var item := items[i];
          if (Contains(Lower(item.nome), busca) || Contains(Lower(item.url), busca))
             && (if soFavoritos then item.fav else true) {
            assert Keep(items[i], termo, soFavoritos);
            todosVazios := false;
            break;
          }
          i := i + 1;
        }
        FilteredEmptyIff(items, termo, soFavoritos);
        assert todosVazios <==> antes && Filtered(items, termo, soFavoritos) == [];
        c := c + 1;
      }
    }
  }
}

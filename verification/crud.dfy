/** What a CRUD operation hands back: the store after it, and either its value
    or the `ValueError` it raised. */
module Outcomes {
  import opened Models

  datatype Result<+T> = Ok(value: T) | ValueError(message: string)

  /** The net effect of one operation: the store it leaves (unchanged when the
      operation was rolled back) and its outcome. */
  datatype Step<+T> = Step(store: Store, outcome: Result<T>)

  const IntegrityErrorMessage: string := "Erro de integridade"
  const CategoriaInUseMessage: string := "Não é possível excluir categoria com livros associados"
}

/** `LivroCRUD`: the operations on the `livros` table. */
module LivroCrud {
  import opened Wrappers
  import Keys
  import opened Models
  import opened Schemas
  import opened Outcomes

  /** Rows in strictly ascending id order (so no id occurs twice). */
  predicate IdsAscending(rows: seq<Livro>) {
    forall i, j :: 0 <= i < j < |rows| ==> rows[i].id < rows[j].id
  }

  /** Adds a book under a fresh id; when the database rejects the row, the
      session is rolled back and "Erro de integridade" is raised. */
  function Create(s: Store, data: LivroCreate, accepts: RowCheck): (r: Step<Livro>)
    ensures r.outcome.Ok? <==> accepts(s, LivroRow(Keys.Fresh(s.livros.Keys), data))
    ensures r.outcome.Ok? ==> r.outcome.value.id !in s.livros
    ensures r.outcome.Ok? ==> forall k :: k in s.livros ==> k < r.outcome.value.id
    ensures r.outcome.Ok? ==> r.outcome.value == LivroRow(r.outcome.value.id, data)
    ensures r.outcome.Ok? ==> r.store.livros.Keys == s.livros.Keys + {r.outcome.value.id}
    ensures r.outcome.Ok? ==> r.store.livros[r.outcome.value.id] == r.outcome.value
    ensures r.outcome.Ok? ==> forall k :: k in s.livros ==> r.store.livros[k] == s.livros[k]
    ensures r.outcome.ValueError? ==> r.store == s && r.outcome.message == IntegrityErrorMessage
    ensures r.store.categorias == s.categorias
  {
    var row := LivroRow(Keys.Fresh(s.livros.Keys), data);
    if accepts(s, row) then Step(s.(livros := s.livros[row.id := row]), Ok(row))
    else Step(s, ValueError(IntegrityErrorMessage))
  }

  /** The book stored under `id`, or None. */
  function Read(s: Store, id: int): (r: Option<Livro>)
    ensures r.Some? <==> id in s.livros
    ensures r.Some? ==> r.value == s.livros[id]
  {
    if id in s.livros then Some(s.livros[id]) else None
  }

  /** Every stored book, once each, in ascending id order. */
  function ReadAll(s: Store): (r: seq<Livro>)
    ensures |r| == |s.livros|
    ensures forall k :: k in s.livros ==> s.livros[k] in r
    ensures forall l :: l in r ==> l in s.livros.Values
  {
    Keys.Scan(s.livros)
  }

  /** Under the primary-key invariant the scan lists the rows by ascending id. */
  lemma ReadAllAscending(s: Store)
    requires Keyed(s)
    ensures IdsAscending(ReadAll(s))
  {
    var ids := Keys.Ascending(s.livros.Keys);
    var r := ReadAll(s);
    forall i | 0 <= i < |r|
      ensures r[i].id == ids[i]
    {
      assert s.livros[ids[i]].id == ids[i];
    }
  }

  /** The rows of `rows` whose category is `categoriaId`, in their order. */
  function InCategoria(rows: seq<Livro>, categoriaId: int): (r: seq<Livro>)
    ensures forall l :: l in r <==> l in rows && l.categoriaId == Some(categoriaId)
    ensures IdsAscending(rows) ==> IdsAscending(r)
    ensures |r| <= |rows|
  {
    if rows == [] then []
    else
      var rest := InCategoria(rows[1..], categoriaId);
      if rows[0].categoriaId == Some(categoriaId) then [rows[0]] + rest else rest
  }

  /** The positions from `from` on whose row has category `categoriaId`, in
      increasing order: the selection a SQL `WHERE` makes on a scan. */
  function MatchingPositions(rows: seq<Livro>, categoriaId: int, from: nat): (ps: seq<int>)
    requires from <= |rows|
    ensures forall i :: 0 <= i < |ps| ==> from <= ps[i] < |rows|
    ensures forall i, j :: 0 <= i < j < |ps| ==> ps[i] < ps[j]
    ensures forall p :: p in ps <==> from <= p < |rows| && rows[p].categoriaId == Some(categoriaId)
    decreases |rows| - from
  {
    if from == |rows| then []
    else
      var rest := MatchingPositions(rows, categoriaId, from + 1);
      if rows[from].categoriaId == Some(categoriaId) then [from] + rest else rest
  }

  /** The filter is that selection on the suffix from `from`: its i-th row is
      the row at the i-th matching position. */
  lemma {:induction false} InCategoriaSelectsFrom(rows: seq<Livro>, categoriaId: int, from: nat)
    requires from <= |rows|
    ensures var r := InCategoria(rows[from..], categoriaId);
      var ps := MatchingPositions(rows, categoriaId, from);
      && |r| == |ps|
      && forall i :: 0 <= i < |r| ==> 0 <= ps[i] < |rows| && r[i] == rows[ps[i]]
    decreases |rows| - from
  {
    var suffix := rows[from..];
    if from < |rows| {
      InCategoriaSelectsFrom(rows, categoriaId, from + 1);
      assert suffix[1..] == rows[from + 1..];
      var rest := InCategoria(rows[from + 1..], categoriaId);
      var later := MatchingPositions(rows, categoriaId, from + 1);
      if rows[from].categoriaId == Some(categoriaId) {
        assert InCategoria(suffix, categoriaId) == [rows[from]] + rest;
        assert MatchingPositions(rows, categoriaId, from) == [from] + later;
      } else {
        assert InCategoria(suffix, categoriaId) == rest;
        assert MatchingPositions(rows, categoriaId, from) == later;
      }
    } else {
      assert suffix == [];
    }
  }

  /** The filter keeps exactly the matching rows, each as often as it occurs,
      in their original order. */
  lemma InCategoriaSelects(rows: seq<Livro>, categoriaId: int)
    ensures |InCategoria(rows, categoriaId)| == |MatchingPositions(rows, categoriaId, 0)|
    ensures forall i :: 0 <= i < |InCategoria(rows, categoriaId)| ==>
      && 0 <= MatchingPositions(rows, categoriaId, 0)[i] < |rows|
      && InCategoria(rows, categoriaId)[i] == rows[MatchingPositions(rows, categoriaId, 0)[i]]
  {
    InCategoriaSelectsFrom(rows, categoriaId, 0);
    assert rows[0..] == rows;
  }

  /** The books whose `categoria_id` equals `categoriaId`, in ascending id order. */
  function ReadByCategoria(s: Store, categoriaId: int): (r: seq<Livro>)
    ensures forall k :: k in s.livros && s.livros[k].categoriaId == Some(categoriaId) ==> s.livros[k] in r
    ensures forall l :: l in r ==> l in s.livros.Values && l.categoriaId == Some(categoriaId)
  {
    var all := ReadAll(s);
    var r := InCategoria(all, categoriaId);
    r
  }

  lemma ReadByCategoriaAscending(s: Store, categoriaId: int)
    requires Keyed(s)
    ensures IdsAscending(ReadByCategoria(s, categoriaId))
  {
    ReadAllAscending(s);
  }

  /** The count `delete` tests is positive exactly when the category's
      relationship view `Categoria.livros` is non-empty. */
  lemma ListedIffRelated(s: Store, categoriaId: int)
    ensures |ReadByCategoria(s, categoriaId)| > 0 <==> LivrosOf(s, categoriaId) != {}
  {
    var r := ReadByCategoria(s, categoriaId);
    if |r| > 0 {
      assert r[0] in r;
      assert r[0] in s.livros.Values;
      var k :| k in s.livros && s.livros[k] == r[0];
      assert s.livros[k] in LivrosOf(s, categoriaId);
    }
    if LivrosOf(s, categoriaId) != {} {
      var l := Keys.Any(LivrosOf(s, categoriaId));
      var k :| k in s.livros && s.livros[k].categoriaId == Some(categoriaId) && s.livros[k] == l;
      assert l in r;
    }
  }

  /** `setattr` of every field the request set, null included. */
  function Patch(l: Livro, p: LivroUpdate): Livro {
    Livro(l.id,
          p.titulo.ApplyTo(l.titulo),
          p.autor.ApplyTo(l.autor),
          p.anoPublicacao.ApplyTo(l.anoPublicacao),
          p.categoriaId.ApplyTo(l.categoriaId))
  }

  /** The partial-update contract: the id never changes; a field the request
      set holds the supplied value (an explicit null included); a field the
      request left out keeps its value. */
  predicate PatchedFrom(before: Livro, p: LivroUpdate, after: Livro) {
    && after.id == before.id
    && (if p.titulo.Set? then after.titulo == p.titulo.value else after.titulo == before.titulo)
    && (if p.autor.Set? then after.autor == p.autor.value else after.autor == before.autor)
    && (if p.anoPublicacao.Set? then after.anoPublicacao == p.anoPublicacao.value
        else after.anoPublicacao == before.anoPublicacao)
    && (if p.categoriaId.Set? then after.categoriaId == p.categoriaId.value
        else after.categoriaId == before.categoriaId)
  }

  /** Partial update. None when no book has the id. A patch that changes no
      column writes nothing; otherwise the patched row goes to the database's
      integrity check, and a rejection rolls back and raises. */
  function Update(s: Store, id: int, p: LivroUpdate, accepts: RowCheck): (r: Step<Option<Livro>>)
    ensures id !in s.livros ==> r == Step(s, Ok(None))
    ensures id in s.livros && r.outcome.Ok? ==>
      && r.outcome.value.Some?
      && PatchedFrom(s.livros[id], p, r.outcome.value.value)
      && r.store.livros == s.livros[id := r.outcome.value.value]
    ensures id in s.livros ==>
      (r.outcome.ValueError? <==> Patch(s.livros[id], p) != s.livros[id] && !accepts(s, Patch(s.livros[id], p)))
    ensures r.outcome.ValueError? ==> r.store == s && r.outcome.message == IntegrityErrorMessage
    ensures r.store.categorias == s.categorias
  {
    if id !in s.livros then Step(s, Ok(None))
    else
      var current := s.livros[id];
      var patched := Patch(current, p);
      if patched == current then Step(s, Ok(Some(current)))
      else if accepts(s, patched) then Step(s.(livros := s.livros[id := patched]), Ok(Some(patched)))
      else Step(s, ValueError(IntegrityErrorMessage))
  }

  /** Removes the book with the id; reports whether there was one. */
  function Delete(s: Store, id: int): (r: Step<bool>)
    ensures r.outcome == Ok(id in s.livros)
    ensures r.store.livros.Keys == s.livros.Keys - {id}
    ensures forall k :: k in r.store.livros ==> r.store.livros[k] == s.livros[k]
    ensures r.store.categorias == s.categorias
    ensures id !in s.livros ==> r.store == s
  {
    if id !in s.livros then Step(s, Ok(false))
    else Step(s.(livros := s.livros - {id}), Ok(true))
  }
}

/** `CategoriaCRUD`: the operations on the `categorias` table. No operation
    here consults the database's integrity check. */
module CategoriaCrud {
  import opened Wrappers
  import Keys
  import opened Models
  import opened Schemas
  import opened Outcomes
  import LivroCrud

  predicate IdsAscending(rows: seq<Categoria>) {
    forall i, j :: 0 <= i < j < |rows| ==> rows[i].id < rows[j].id
  }

  /** Adds a category under a fresh id; never raises. */
  function Create(s: Store, data: CategoriaCreate): (r: Step<Categoria>)
    ensures r.outcome.Ok?
    ensures r.outcome.value.id !in s.categorias
    ensures forall k :: k in s.categorias ==> k < r.outcome.value.id
    ensures r.outcome.value == CategoriaRow(r.outcome.value.id, data)
    ensures r.store.categorias.Keys == s.categorias.Keys + {r.outcome.value.id}
    ensures r.store.categorias[r.outcome.value.id] == r.outcome.value
    ensures forall k :: k in s.categorias ==> r.store.categorias[k] == s.categorias[k]
    ensures r.store.livros == s.livros
  {
    var row := CategoriaRow(Keys.Fresh(s.categorias.Keys), data);
    Step(s.(categorias := s.categorias[row.id := row]), Ok(row))
  }

  function Read(s: Store, id: int): (r: Option<Categoria>)
    ensures r.Some? <==> id in s.categorias
    ensures r.Some? ==> r.value == s.categorias[id]
  {
    if id in s.categorias then Some(s.categorias[id]) else None
  }

  /** Every stored category, once each, in ascending id order. */
  function ReadAll(s: Store): (r: seq<Categoria>)
    ensures |r| == |s.categorias|
    ensures forall k :: k in s.categorias ==> s.categorias[k] in r
    ensures forall c :: c in r ==> c in s.categorias.Values
  {
    Keys.Scan(s.categorias)
  }

  /** Under the primary-key invariant the scan lists the rows by ascending id. */
  lemma ReadAllAscending(s: Store)
    requires Keyed(s)
    ensures IdsAscending(ReadAll(s))
  {
    var ids := Keys.Ascending(s.categorias.Keys);
    var r := ReadAll(s);
    forall i | 0 <= i < |r|
      ensures r[i].id == ids[i]
    {
      assert s.categorias[ids[i]].id == ids[i];
    }
  }

  function Patch(c: Categoria, p: CategoriaUpdate): Categoria {
    Categoria(c.id, p.nome.ApplyTo(c.nome), p.descricao.ApplyTo(c.descricao))
  }

  /** The partial-update contract, as for books. */
  predicate PatchedFrom(before: Categoria, p: CategoriaUpdate, after: Categoria) {
    && after.id == before.id
    && (if p.nome.Set? then after.nome == p.nome.value else after.nome == before.nome)
    && (if p.descricao.Set? then after.descricao == p.descricao.value else after.descricao == before.descricao)
  }

  /** Partial update; None when no category has the id; never raises. */
  function Update(s: Store, id: int, p: CategoriaUpdate): (r: Step<Option<Categoria>>)
    ensures r.outcome.Ok?
    ensures id !in s.categorias ==> r == Step(s, Ok(None))
    ensures id in s.categorias ==>
      && r.outcome.value.Some?
      && PatchedFrom(s.categorias[id], p, r.outcome.value.value)
      && r.store.categorias == s.categorias[id := r.outcome.value.value]
    ensures r.store.livros == s.livros
  {
    if id !in s.categorias then Step(s, Ok(None))
    else
      var patched := Patch(s.categorias[id], p);
      Step(s.(categorias := s.categorias[id := patched]), Ok(Some(patched)))
  }

  /** Removes the category with the id. False when there is none; raises,
      changing nothing, when some book still belongs to it; otherwise removes
      only that category. Books are never touched. */
  function Delete(s: Store, id: int): (r: Step<bool>)
    ensures id !in s.categorias ==> r == Step(s, Ok(false))
    ensures id in s.categorias && LivrosOf(s, id) != {} ==> r == Step(s, ValueError(CategoriaInUseMessage))
    ensures id in s.categorias && LivrosOf(s, id) == {} ==>
      r == Step(s.(categorias := s.categorias - {id}), Ok(true))
    ensures r.store.livros == s.livros
    ensures ReferentialIntegrity(s) ==> ReferentialIntegrity(r.store)
  {
    if id !in s.categorias then Step(s, Ok(false))
    else if |LivroCrud.ReadByCategoria(s, id)| > 0 then
      LivroCrud.ListedIffRelated(s, id);
      Step(s, ValueError(CategoriaInUseMessage))
    else
      LivroCrud.ListedIffRelated(s, id);
      var t := s.(categorias := s.categorias - {id});
      assert ReferentialIntegrity(s) ==> ReferentialIntegrity(t) by {
        if ReferentialIntegrity(s) { UnreferencedRemovalKeepsIntegrity(s, id); }
      }
      Step(t, Ok(true))
  }
}

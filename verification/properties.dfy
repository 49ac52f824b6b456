/** Properties that relate several operations: reads after writes, the
    partial-update contract, the invariant a sequence of requests keeps, the
    scenarios of the test suite, and what an explicit null in a patch does. */
module Properties {
  import opened Wrappers
  import Keys
  import opened Models
  import opened Schemas
  import opened Outcomes
  import LivroCrud
  import CategoriaCrud

  // ------------------------------------------------------- reads after writes

  /** A created book reads back under its new id, and its Read view is the
      input plus that id. */
  lemma CreateLivroThenRead(s: Store, data: LivroCreate, accepts: RowCheck)
    ensures var r := LivroCrud.Create(s, data, accepts);
      r.outcome.Ok? ==>
        && LivroCrud.Read(r.store, r.outcome.value.id) == Some(r.outcome.value)
        && (ValidLivroCreate(data) ==>
              LivroReadOf(r.outcome.value) == Some(LivroRead(r.outcome.value.id, data)))
  {
    var r := LivroCrud.Create(s, data, accepts);
    if r.outcome.Ok? {
      LivroReadRoundTrip(r.outcome.value.id, data);
    }
  }

  lemma CreateCategoriaThenRead(s: Store, data: CategoriaCreate)
    ensures var r := CategoriaCrud.Create(s, data);
      && CategoriaCrud.Read(r.store, r.outcome.value.id) == Some(r.outcome.value)
      && (ValidCategoriaCreate(data) ==>
            CategoriaReadOf(r.outcome.value) == Some(CategoriaRead(r.outcome.value.id, data)))
  {
    var r := CategoriaCrud.Create(s, data);
    CategoriaReadRoundTrip(r.outcome.value.id, data);
  }

  /** After a delete that reported success, the id reads as absent. */
  lemma DeleteThenRead(s: Store, id: int)
    ensures LivroCrud.Read(LivroCrud.Delete(s, id).store, id) == None
    ensures CategoriaCrud.Delete(s, id).outcome == Ok(true) ==>
      CategoriaCrud.Read(CategoriaCrud.Delete(s, id).store, id) == None
  {
  }

  /** With foreign keys enforced, a book that names a missing category is
      refused and nothing is stored. */
  lemma CreateWithMissingCategoriaFails(s: Store, data: LivroCreate, accepts: RowCheck)
    requires EnforcesForeignKey(accepts)
    requires data.categoriaId.Some? && data.categoriaId.value !in s.categorias
    ensures LivroCrud.Create(s, data, accepts) == Step(s, ValueError(IntegrityErrorMessage))
  {
    var row := LivroRow(Keys.Fresh(s.livros.Keys), data);
    assert !LinksLiveCategoria(s, row);
  }

  // --------------------------------------------------------- partial updates

  /** The partial-update contract pins the result down: exactly one record
      satisfies it, the one the `setattr` loop produces. */
  lemma LivroPatchIsDetermined(before: Livro, p: LivroUpdate, after: Livro)
    ensures LivroCrud.PatchedFrom(before, p, after) <==> after == LivroCrud.Patch(before, p)
  {
    if LivroCrud.PatchedFrom(before, p, after) {
      assert after.titulo == p.titulo.ApplyTo(before.titulo);
      assert after.autor == p.autor.ApplyTo(before.autor);
      assert after.anoPublicacao == p.anoPublicacao.ApplyTo(before.anoPublicacao);
      assert after.categoriaId == p.categoriaId.ApplyTo(before.categoriaId);
    }
  }

  lemma CategoriaPatchIsDetermined(before: Categoria, p: CategoriaUpdate, after: Categoria)
    ensures CategoriaCrud.PatchedFrom(before, p, after) <==> after == CategoriaCrud.Patch(before, p)
  {
    if CategoriaCrud.PatchedFrom(before, p, after) {
      assert after.nome == p.nome.ApplyTo(before.nome);
      assert after.descricao == p.descricao.ApplyTo(before.descricao);
    }
  }

  /** A patch that sets nothing is the identity: the stored record comes back
      and the store is unchanged, whatever the integrity check would say. */
  lemma EmptyPatchIsIdentity(s: Store, id: int, accepts: RowCheck)
    ensures LivroCrud.Update(s, id, EmptyLivroUpdate, accepts) == Step(s, Ok(LivroCrud.Read(s, id)))
    ensures CategoriaCrud.Update(s, id, EmptyCategoriaUpdate) == Step(s, Ok(CategoriaCrud.Read(s, id)))
  {
    if id in s.categorias {
      assert s.categorias[id := s.categorias[id]] == s.categorias;
    }
  }

  /** A patch that supplies every field (what a PUT with a full body sends)
      turns the stored record into the row of that create record. */
  lemma FullPatchReplaces(s: Store, id: int, d: LivroCreate, c: CategoriaCreate, accepts: RowCheck)
    requires Keyed(s)
    ensures var r := LivroCrud.Update(s, id, FullLivroUpdate(d), accepts);
      id in s.livros && r.outcome.Ok? ==> r.outcome.value == Some(LivroRow(id, d))
    ensures var r := CategoriaCrud.Update(s, id, FullCategoriaUpdate(c));
      id in s.categorias ==> r.outcome.value == Some(CategoriaRow(id, c))
  {
  }

  // --------------------------------------------- reads and the relationship

  /** `read_by_categoria` returns exactly the books of the relationship view
      `Categoria.livros`. */
  lemma ReadByCategoriaIsRelation(s: Store, c: int)
    ensures forall k :: k in s.livros ==>
      (s.livros[k] in LivroCrud.ReadByCategoria(s, c) <==> s.livros[k] in LivrosOf(s, c))
    ensures forall l :: l in LivroCrud.ReadByCategoria(s, c) ==> l in LivrosOf(s, c)
  {
    var r := LivroCrud.ReadByCategoria(s, c);
    forall l | l in r
      ensures l in LivrosOf(s, c)
    {
      var i :| 0 <= i < |r| && r[i] == l;
      var k :| k in s.livros && s.livros[k] == r[i];
    }
  }

  // ------------------------------------------- invariant of request sequences

  /** One write request, after schema validation. */
  datatype Op =
    | CreateLivroOp(livro: LivroCreate)
    | UpdateLivroOp(livroId: int, livroPatch: LivroUpdate)
    | DeleteLivroOp(livroId: int)
    | CreateCategoriaOp(categoria: CategoriaCreate)
    | UpdateCategoriaOp(categoriaId: int, categoriaPatch: CategoriaUpdate)
    | DeleteCategoriaOp(categoriaId: int)

  /** The request body passed its validator. Patches use the validators that
      refuse an explicit null for a field the Read view requires. */
  predicate Admitted(op: Op) {
    match op
    case CreateLivroOp(d) => ValidLivroCreate(d)
    case UpdateLivroOp(_, p) => ValidLivroUpdateNonNull(p)
    case DeleteLivroOp(_) => true
    case CreateCategoriaOp(d) => ValidCategoriaCreate(d)
    case UpdateCategoriaOp(_, p) => ValidCategoriaUpdateNonNull(p)
    case DeleteCategoriaOp(_) => true
  }

  /** The store after one request. */
  function Apply(s: Store, op: Op, accepts: RowCheck): Store {
    match op
    case CreateLivroOp(d) => LivroCrud.Create(s, d, accepts).store
    case UpdateLivroOp(id, p) => LivroCrud.Update(s, id, p, accepts).store
    case DeleteLivroOp(id) => LivroCrud.Delete(s, id).store
    case CreateCategoriaOp(d) => CategoriaCrud.Create(s, d).store
    case UpdateCategoriaOp(id, p) => CategoriaCrud.Update(s, id, p).store
    case DeleteCategoriaOp(id) => CategoriaCrud.Delete(s, id).store
  }

  /** The store after a sequence of requests, in order. */
  function Run(s: Store, ops: seq<Op>, accepts: RowCheck): Store
    decreases |ops|
  {
    if ops == [] then s else Run(Apply(s, ops[0], accepts), ops[1..], accepts)
  }

  /** Every stored row can be sent back as its Read view. */
  predicate Readable(s: Store) {
    && (forall k :: k in s.livros ==> LivroReadOf(s.livros[k]).Some?)
    && (forall k :: k in s.categorias ==> CategoriaReadOf(s.categorias[k]).Some?)
  }

  /** Primary keys, referential integrity, and every row readable. */
  predicate Consistent(s: Store) {
    Keyed(s) && ReferentialIntegrity(s) && Readable(s)
  }

  /** A patch that passes the non-null validator keeps a book readable. */
  lemma LivroNonNullPatchKeepsReadView(l: Livro, p: LivroUpdate)
    requires LivroReadOf(l).Some?
    requires ValidLivroUpdateNonNull(p)
    ensures LivroReadOf(LivroCrud.Patch(l, p)).Some?
  {
    var d := LivroReadOf(l).value.fields;
    var patched := LivroCrud.Patch(l, p);
    var d' := LivroCreate(patched.titulo.value, patched.autor.value, patched.anoPublicacao.value, patched.categoriaId);
    assert ValidLivroCreate(d');
    assert LivroRow(patched.id, d') == patched;
  }

  /** A patch that passes the non-null validator keeps a category readable. */
  lemma CategoriaNonNullPatchKeepsReadView(c: Categoria, p: CategoriaUpdate)
    requires CategoriaReadOf(c).Some?
    requires ValidCategoriaUpdateNonNull(p)
    ensures CategoriaReadOf(CategoriaCrud.Patch(c, p)).Some?
  {
    var patched := CategoriaCrud.Patch(c, p);
    var d' := CategoriaCreate(patched.nome.value, patched.descricao);
    assert ValidCategoriaCreate(d');
    assert CategoriaRow(patched.id, d') == patched;
  }

  lemma CreateLivroKeepsConsistency(s: Store, d: LivroCreate, accepts: RowCheck)
    requires Consistent(s)
    requires ValidLivroCreate(d)
    requires EnforcesForeignKey(accepts)
    ensures Consistent(LivroCrud.Create(s, d, accepts).store)
  {
    var r := LivroCrud.Create(s, d, accepts);
    if r.outcome.Ok? {
      var t := r.store;
      var l := r.outcome.value;
      LivroReadRoundTrip(l.id, d);
      assert LinksLiveCategoria(s, l);
      forall k | k in t.livros
        ensures t.livros[k].id == k
        ensures LinksLiveCategoria(t, t.livros[k])
        ensures LivroReadOf(t.livros[k]).Some?
      {
        if k != l.id { assert t.livros[k] == s.livros[k]; }
      }
    }
  }

  lemma UpdateLivroKeepsConsistency(s: Store, id: int, p: LivroUpdate, accepts: RowCheck)
    requires Consistent(s)
    requires ValidLivroUpdateNonNull(p)
    requires EnforcesForeignKey(accepts)
    ensures Consistent(LivroCrud.Update(s, id, p, accepts).store)
  {
    var r := LivroCrud.Update(s, id, p, accepts);
    if id in s.livros && r.store != s {
      var patched := LivroCrud.Patch(s.livros[id], p);
      LivroNonNullPatchKeepsReadView(s.livros[id], p);
      assert accepts(s, patched);
      assert LinksLiveCategoria(s, patched);
      assert r.store.livros == s.livros[id := patched];
    }
  }

  lemma DeleteLivroKeepsConsistency(s: Store, id: int)
    requires Consistent(s)
    ensures Consistent(LivroCrud.Delete(s, id).store)
  {
  }

  lemma CreateCategoriaKeepsConsistency(s: Store, d: CategoriaCreate)
    requires Consistent(s)
    requires ValidCategoriaCreate(d)
    ensures Consistent(CategoriaCrud.Create(s, d).store)
  {
    var r := CategoriaCrud.Create(s, d);
    var t := r.store;
    var c := r.outcome.value;
    CategoriaReadRoundTrip(c.id, d);
    forall k | k in t.categorias
      ensures t.categorias[k].id == k
      ensures CategoriaReadOf(t.categorias[k]).Some?
    {
      if k != c.id { assert t.categorias[k] == s.categorias[k]; }
    }
    forall k | k in t.livros
      ensures LinksLiveCategoria(t, t.livros[k])
    {
      assert LinksLiveCategoria(s, s.livros[k]);
    }
  }

  lemma UpdateCategoriaKeepsConsistency(s: Store, id: int, p: CategoriaUpdate)
    requires Consistent(s)
    requires ValidCategoriaUpdateNonNull(p)
    ensures Consistent(CategoriaCrud.Update(s, id, p).store)
  {
    if id in s.categorias {
      CategoriaNonNullPatchKeepsReadView(s.categorias[id], p);
      var t := CategoriaCrud.Update(s, id, p).store;
      assert t.categorias.Keys == s.categorias.Keys;
      forall k | k in t.livros
        ensures LinksLiveCategoria(t, t.livros[k])
      {
        assert LinksLiveCategoria(s, s.livros[k]);
      }
    }
  }

  lemma DeleteCategoriaKeepsConsistency(s: Store, id: int)
    requires Consistent(s)
    ensures Consistent(CategoriaCrud.Delete(s, id).store)
  {
  }

  lemma ApplyPreservesConsistency(s: Store, op: Op, accepts: RowCheck)
    requires Consistent(s)
    requires Admitted(op)
    requires EnforcesForeignKey(accepts)
    ensures Consistent(Apply(s, op, accepts))
  {
    match op
    case CreateLivroOp(d) => CreateLivroKeepsConsistency(s, d, accepts);
    case UpdateLivroOp(id, p) => UpdateLivroKeepsConsistency(s, id, p, accepts);
    case DeleteLivroOp(id) => DeleteLivroKeepsConsistency(s, id);
    case CreateCategoriaOp(d) => CreateCategoriaKeepsConsistency(s, d);
    case UpdateCategoriaOp(id, p) => UpdateCategoriaKeepsConsistency(s, id, p);
    case DeleteCategoriaOp(id) => DeleteCategoriaKeepsConsistency(s, id);
  }

  /** Starting from a consistent store, any sequence of validated requests
      leaves the store consistent, provided the database enforces the foreign
      key. In particular every book's category is absent or live. */
  lemma {:induction false} RunPreservesConsistency(s: Store, ops: seq<Op>, accepts: RowCheck)
    requires Consistent(s)
    requires forall i :: 0 <= i < |ops| ==> Admitted(ops[i])
    requires EnforcesForeignKey(accepts)
    ensures Consistent(Run(s, ops, accepts))
    decreases |ops|
  {
    if ops != [] {
      ApplyPreservesConsistency(s, ops[0], accepts);
      RunPreservesConsistency(Apply(s, ops[0], accepts), ops[1..], accepts);
    }
  }

  /** The empty database has no rows to break any of the three invariants. */
  lemma EmptyIsConsistent()
    ensures Consistent(Empty)
  {
    assert Empty.livros.Keys == {} && Empty.categorias.Keys == {};
  }

  /** The empty database is consistent, so every database a sequence of
      validated requests builds from it is. */
  lemma {:induction false} ReachableIsConsistent(ops: seq<Op>, accepts: RowCheck)
    requires forall i :: 0 <= i < |ops| ==> Admitted(ops[i])
    requires EnforcesForeignKey(accepts)
    ensures Consistent(Run(Empty, ops, accepts))
  {
    EmptyIsConsistent();
    RunPreservesConsistency(Empty, ops, accepts);
  }

  // ------------------------------------- keys and links, program as written

  /** Primary keys and referential integrity: the part of `Consistent` that
      does not depend on any validator. */
  predicate Integral(s: Store) {
    Keyed(s) && ReferentialIntegrity(s)
  }

  lemma CreateLivroKeepsIntegrity(s: Store, d: LivroCreate, accepts: RowCheck)
    requires Integral(s)
    requires EnforcesForeignKey(accepts)
    ensures Integral(LivroCrud.Create(s, d, accepts).store)
  {
    var r := LivroCrud.Create(s, d, accepts);
    if r.outcome.Ok? {
      var t := r.store;
      var l := r.outcome.value;
      assert LinksLiveCategoria(s, l);
      forall k | k in t.livros
        ensures t.livros[k].id == k && LinksLiveCategoria(t, t.livros[k])
      {
        if k != l.id { assert t.livros[k] == s.livros[k]; }
      }
    }
  }

  /** No validator is assumed: an explicit null is as harmless here as any value. */
  lemma UpdateLivroKeepsIntegrity(s: Store, id: int, p: LivroUpdate, accepts: RowCheck)
    requires Integral(s)
    requires EnforcesForeignKey(accepts)
    ensures Integral(LivroCrud.Update(s, id, p, accepts).store)
  {
    var r := LivroCrud.Update(s, id, p, accepts);
    if id in s.livros && r.store != s {
      var patched := LivroCrud.Patch(s.livros[id], p);
      assert accepts(s, patched);
      assert LinksLiveCategoria(s, patched);
      assert r.store.livros == s.livros[id := patched];
    }
  }

  lemma CreateCategoriaKeepsIntegrity(s: Store, d: CategoriaCreate)
    requires Integral(s)
    ensures Integral(CategoriaCrud.Create(s, d).store)
  {
    var r := CategoriaCrud.Create(s, d);
    var t := r.store;
    var c := r.outcome.value;
    forall k | k in t.categorias
      ensures t.categorias[k].id == k
    {
      if k != c.id { assert t.categorias[k] == s.categorias[k]; }
    }
    forall k | k in t.livros
      ensures LinksLiveCategoria(t, t.livros[k])
    {
      assert LinksLiveCategoria(s, s.livros[k]);
    }
  }

  lemma UpdateCategoriaKeepsIntegrity(s: Store, id: int, p: CategoriaUpdate)
    requires Integral(s)
    ensures Integral(CategoriaCrud.Update(s, id, p).store)
  {
    var t := CategoriaCrud.Update(s, id, p).store;
    assert t.categorias.Keys == s.categorias.Keys;
    forall k | k in t.livros
      ensures LinksLiveCategoria(t, t.livros[k])
    {
      assert LinksLiveCategoria(s, s.livros[k]);
    }
  }

  /** With the foreign key enforced, every write request keeps primary keys
      and referential integrity, whether or not its body passed a validator,
      so an explicit-null patch accepted as written cannot break them. */
  lemma ApplyKeepsIntegrity(s: Store, op: Op, accepts: RowCheck)
    requires Integral(s)
    requires EnforcesForeignKey(accepts)
    ensures Integral(Apply(s, op, accepts))
  {
    match op
    case CreateLivroOp(d) => CreateLivroKeepsIntegrity(s, d, accepts);
    case UpdateLivroOp(id, p) => UpdateLivroKeepsIntegrity(s, id, p, accepts);
    case DeleteLivroOp(id) =>
    case CreateCategoriaOp(d) => CreateCategoriaKeepsIntegrity(s, d);
    case UpdateCategoriaOp(id, p) => UpdateCategoriaKeepsIntegrity(s, id, p);
    case DeleteCategoriaOp(id) =>
  }

  lemma {:induction false} RunKeepsIntegrity(s: Store, ops: seq<Op>, accepts: RowCheck)
    requires Integral(s)
    requires EnforcesForeignKey(accepts)
    ensures Integral(Run(s, ops, accepts))
    decreases |ops|
  {
    if ops != [] {
      ApplyKeepsIntegrity(s, ops[0], accepts);
      RunKeepsIntegrity(Apply(s, ops[0], accepts), ops[1..], accepts);
    }
  }

  /** Every database the program as written can reach from the empty one keeps
      primary keys and referential integrity, when the foreign key is enforced. */
  lemma {:induction false} ReachableIsIntegral(ops: seq<Op>, accepts: RowCheck)
    requires EnforcesForeignKey(accepts)
    ensures Integral(Run(Empty, ops, accepts))
  {
    EmptyIsConsistent();
    RunKeepsIntegrity(Empty, ops, accepts);
  }

  /** Deleting categories never breaks referential integrity, whatever the
      database enforces, and never touches a book. */
  lemma {:induction false} CategoriaDeletesKeepIntegrity(s: Store, ids: seq<int>)
    requires ReferentialIntegrity(s)
    ensures ReferentialIntegrity(Run(s, DeleteCategoriaOps(ids), (t, l) => true))
    ensures Run(s, DeleteCategoriaOps(ids), (t, l) => true).livros == s.livros
    decreases |ids|
  {
    if ids != [] {
      assert DeleteCategoriaOps(ids)[1..] == DeleteCategoriaOps(ids[1..]);
      CategoriaDeletesKeepIntegrity(CategoriaCrud.Delete(s, ids[0]).store, ids[1..]);
    }
  }

  function DeleteCategoriaOps(ids: seq<int>): (ops: seq<Op>)
    ensures |ops| == |ids|
    ensures forall i :: 0 <= i < |ids| ==> ops[i] == DeleteCategoriaOp(ids[i])
  {
    if ids == [] then [] else [DeleteCategoriaOp(ids[0])] + DeleteCategoriaOps(ids[1..])
  }

  // ---------------------------------------------------------------- scenarios

  const Duna := LivroCreate("Duna", "Frank Herbert", 1965, None)

  /** Create a book, read it back by its id; delete it, and it reads as absent. */
  lemma CreateGetDeleteScenario()
    ensures var c := LivroCrud.Create(Empty, Duna, LinksLiveCategoria);
      && c.outcome == Ok(LivroRow(1, Duna))
      && LivroCrud.Read(c.store, 1) == Some(LivroRow(1, Duna))
      && LivroCrud.Delete(c.store, 1).outcome == Ok(true)
      && LivroCrud.Read(LivroCrud.Delete(c.store, 1).store, 1) == None
      && LivroCrud.Delete(LivroCrud.Delete(c.store, 1).store, 1).outcome == Ok(false)
  {
  }

  /** A category with a book cannot be deleted; once the book is gone, it can. */
  lemma DeleteGuardScenario()
    ensures
      var s1 := CategoriaCrud.Create(Empty, CategoriaCreate("Sci-Fi", None)).store;
      var b := LivroCreate("Dune", "Frank Herbert", 1965, Some(1));
      var r2 := LivroCrud.Create(s1, b, LinksLiveCategoria);
      && r2.outcome == Ok(LivroRow(1, b))
      && LivroCrud.ReadByCategoria(r2.store, 1) == [LivroRow(1, b)]
      && CategoriaCrud.Delete(r2.store, 1) == Step(r2.store, ValueError(CategoriaInUseMessage))
      && var s3 := LivroCrud.Delete(r2.store, 1).store;
      && CategoriaCrud.Delete(s3, 1).outcome == Ok(true)
      && CategoriaCrud.Read(CategoriaCrud.Delete(s3, 1).store, 1) == None
  {
    var s1 := CategoriaCrud.Create(Empty, CategoriaCreate("Sci-Fi", None)).store;
    assert s1.categorias.Keys == {1};
    var b := LivroCreate("Dune", "Frank Herbert", 1965, Some(1));
    var r2 := LivroCrud.Create(s1, b, LinksLiveCategoria);
    assert r2.store.livros == map[1 := LivroRow(1, b)];
    var rows := LivroCrud.ReadByCategoria(r2.store, 1);
    assert LivroRow(1, b) in rows;
    assert |rows| <= 1 by {
      assert |LivroCrud.ReadAll(r2.store)| == 1;
    }
    assert LivroRow(1, b) in LivrosOf(r2.store, 1);
    var s3 := LivroCrud.Delete(r2.store, 1).store;
    assert s3.livros == map[];
    assert LivrosOf(s3, 1) == {};
  }

  // ------------------------------------------------------ explicit null patch

  /** As written, `LivroUpdate` lets `{"titulo": null}` through, and the update
      stores a book whose title is null, which no longer has a Read view. */
  lemma NullTituloPatchBreaksReadView()
    ensures
      var s := Store(map[1 := LivroRow(1, Duna)], map[]);
      var p := LivroUpdate(Set(None), Unset, Unset, Unset);
      var r := LivroCrud.Update(s, 1, p, LinksLiveCategoria);
      && ValidLivroUpdate(p)
      && LivroReadOf(s.livros[1]).Some?
      && r.outcome.Ok? && r.outcome.value.Some?
      && LivroReadOf(r.outcome.value.value).None?
  {
  }

  /** As written, `CategoriaUpdate` lets `{"nome": null}` through, and the
      update stores a category with a null name, which has no Read view. */
  lemma NullNomePatchBreaksReadView()
    ensures
      var s := Store(map[], map[1 := CategoriaRow(1, CategoriaCreate("Sci-Fi", None))]);
      var p := CategoriaUpdate(Set(None), Unset);
      var r := CategoriaCrud.Update(s, 1, p);
      && ValidCategoriaUpdate(p)
      && CategoriaReadOf(s.categorias[1]).Some?
      && r.outcome.value.Some?
      && CategoriaReadOf(r.outcome.value.value).None?
  {
  }
}

/** The request and response shapes of the API and their validators. A request
    reaches the CRUD layer only when its validator holds; a stored row is sent
    back only when it can be read as the corresponding Read shape. */
module Schemas {
  import opened Wrappers
  import opened Models

  const NomeMaxLength := 100
  const DescricaoMaxLength := 500
  const TituloMaxLength := 200
  const AutorMaxLength := 100
  const AnoMin := 1000
  const AnoMax := 2030

  predicate LengthWithin(text: string, lo: nat, hi: nat) {
    lo <= |text| <= hi
  }

  /** A supplied non-null patch value has a length within `lo..hi`; an unset
      field or an explicit null is not checked. */
  predicate PatchedTextWithin(f: FieldPatch<string>, lo: nat, hi: nat) {
    f.Set? && f.value.Some? ==> LengthWithin(f.value.value, lo, hi)
  }

  predicate YearWithin(ano: int) {
    AnoMin <= ano <= AnoMax
  }

  // ---------------------------------------------------------------- Categoria

  datatype CategoriaCreate = CategoriaCreate(nome: string, descricao: Option<string>)

  predicate ValidCategoriaCreate(d: CategoriaCreate) {
    && LengthWithin(d.nome, 1, NomeMaxLength)
    && (d.descricao.Some? ==> |d.descricao.value| <= DescricaoMaxLength)
  }

  datatype CategoriaUpdate = CategoriaUpdate(nome: FieldPatch<string>, descricao: FieldPatch<string>)

  const EmptyCategoriaUpdate := CategoriaUpdate(Unset, Unset)

  /** Every field optional; an explicit null passes for every field. */
  predicate ValidCategoriaUpdate(p: CategoriaUpdate) {
    && PatchedTextWithin(p.nome, 1, NomeMaxLength)
    && PatchedTextWithin(p.descricao, 0, DescricaoMaxLength)
  }

  /** `CategoriaUpdate` with an explicit null refused for `nome`, the one field
      `CategoriaRead` cannot do without. */
  predicate ValidCategoriaUpdateNonNull(p: CategoriaUpdate) {
    && ValidCategoriaUpdate(p)
    && p.nome != Set(None)
  }

  /** The Create fields plus the id. */
  datatype CategoriaRead = CategoriaRead(id: int, fields: CategoriaCreate)

  /** The row `Categoria(**data.dict())` stored under `id`. */
  function CategoriaRow(id: int, d: CategoriaCreate): Categoria {
    Categoria(id, Some(d.nome), d.descricao)
  }

  /** Reading a stored row as a `CategoriaRead`: defined exactly when the row is
      the row of some valid create record. */
  function CategoriaReadOf(c: Categoria): (r: Option<CategoriaRead>)
    ensures r.Some? ==> r.value.id == c.id && ValidCategoriaCreate(r.value.fields)
    ensures r.Some? ==> CategoriaRow(r.value.id, r.value.fields) == c
    ensures forall d :: CategoriaRow(c.id, d) == c && ValidCategoriaCreate(d) ==> r == Some(CategoriaRead(c.id, d))
  {
    if c.nome.Some? && ValidCategoriaCreate(CategoriaCreate(c.nome.value, c.descricao))
    then Some(CategoriaRead(c.id, CategoriaCreate(c.nome.value, c.descricao)))
    else None
  }

  // -------------------------------------------------------------------- Livro

  datatype LivroCreate = LivroCreate(
    titulo: string,
    autor: string,
    anoPublicacao: int,
    categoriaId: Option<int>)

  predicate ValidLivroCreate(d: LivroCreate) {
    && LengthWithin(d.titulo, 1, TituloMaxLength)
    && LengthWithin(d.autor, 1, AutorMaxLength)
    && YearWithin(d.anoPublicacao)
  }

  datatype LivroUpdate = LivroUpdate(
    titulo: FieldPatch<string>,
    autor: FieldPatch<string>,
    anoPublicacao: FieldPatch<int>,
    categoriaId: FieldPatch<int>)

  const EmptyLivroUpdate := LivroUpdate(Unset, Unset, Unset, Unset)

  /** Every field optional; a supplied non-null value obeys the create bounds;
      an explicit null passes for every field. */
  predicate ValidLivroUpdate(p: LivroUpdate) {
    && PatchedTextWithin(p.titulo, 1, TituloMaxLength)
    && PatchedTextWithin(p.autor, 1, AutorMaxLength)
    && (p.anoPublicacao.Set? && p.anoPublicacao.value.Some? ==> YearWithin(p.anoPublicacao.value.value))
  }

  /** `LivroUpdate` with an explicit null refused for the fields `LivroRead`
      cannot do without: `titulo`, `autor` and `ano_publicacao`. */
  predicate ValidLivroUpdateNonNull(p: LivroUpdate) {
    && ValidLivroUpdate(p)
    && p.titulo != Set(None)
    && p.autor != Set(None)
    && p.anoPublicacao != Set(None)
  }

  /** The Create fields plus the id. */
  datatype LivroRead = LivroRead(id: int, fields: LivroCreate)

  /** The row `Livro(**data.dict())` stored under `id`. */
  function LivroRow(id: int, d: LivroCreate): Livro {
    Livro(id, Some(d.titulo), Some(d.autor), Some(d.anoPublicacao), d.categoriaId)
  }

  /** Reading a stored row as a `LivroRead`: defined exactly when the row is the
      row of some valid create record. */
  function LivroReadOf(l: Livro): (r: Option<LivroRead>)
    ensures r.Some? ==> r.value.id == l.id && ValidLivroCreate(r.value.fields)
    ensures r.Some? ==> LivroRow(r.value.id, r.value.fields) == l
    ensures forall d :: LivroRow(l.id, d) == l && ValidLivroCreate(d) ==> r == Some(LivroRead(l.id, d))
  {
    if l.titulo.Some? && l.autor.Some? && l.anoPublicacao.Some?
       && ValidLivroCreate(LivroCreate(l.titulo.value, l.autor.value, l.anoPublicacao.value, l.categoriaId))
    then Some(LivroRead(l.id, LivroCreate(l.titulo.value, l.autor.value, l.anoPublicacao.value, l.categoriaId)))
    else None
  }

  // ------------------------------------------------------------------ lemmas

  /** A row built from a valid create record reads back as that record plus its id. */
  lemma LivroReadRoundTrip(id: int, d: LivroCreate)
    ensures LivroReadOf(LivroRow(id, d)).Some? <==> ValidLivroCreate(d)
    ensures ValidLivroCreate(d) ==> LivroReadOf(LivroRow(id, d)) == Some(LivroRead(id, d))
  {
  }

  lemma CategoriaReadRoundTrip(id: int, d: CategoriaCreate)
    ensures CategoriaReadOf(CategoriaRow(id, d)).Some? <==> ValidCategoriaCreate(d)
    ensures ValidCategoriaCreate(d) ==> CategoriaReadOf(CategoriaRow(id, d)) == Some(CategoriaRead(id, d))
  {
  }

  /** The year range is inclusive at both ends. */
  lemma YearBoundsInclusive(titulo: string, autor: string, categoriaId: Option<int>)
    requires LengthWithin(titulo, 1, TituloMaxLength) && LengthWithin(autor, 1, AutorMaxLength)
    ensures ValidLivroCreate(LivroCreate(titulo, autor, 1000, categoriaId))
    ensures ValidLivroCreate(LivroCreate(titulo, autor, 2030, categoriaId))
    ensures !ValidLivroCreate(LivroCreate(titulo, autor, 999, categoriaId))
    ensures !ValidLivroCreate(LivroCreate(titulo, autor, 2031, categoriaId))
  {
  }

  /** The invalid book of the test suite (empty title, year 3000) is refused,
      and each of its two faults is enough on its own. */
  lemma InvalidSampleRejected()
    ensures !ValidLivroCreate(LivroCreate("", "X", 3000, None))
    ensures !ValidLivroCreate(LivroCreate("", "X", 1965, None))
    ensures !ValidLivroCreate(LivroCreate("Duna", "X", 3000, None))
    ensures ValidLivroCreate(LivroCreate("Duna", "Frank Herbert", 1965, None))
  {
  }

  /** The patch that supplies every field of a create record. */
  function FullLivroUpdate(d: LivroCreate): LivroUpdate {
    LivroUpdate(Set(Some(d.titulo)), Set(Some(d.autor)), Set(Some(d.anoPublicacao)), Set(d.categoriaId))
  }

  function FullCategoriaUpdate(d: CategoriaCreate): CategoriaUpdate {
    CategoriaUpdate(Set(Some(d.nome)), Set(d.descricao))
  }

  /** A patch carries the same per-field bounds as a create record: a create
      record is valid exactly when the patch supplying all its fields is; and the
      patch that supplies nothing is valid. */
  lemma UpdateBoundsMatchCreate(d: LivroCreate, c: CategoriaCreate)
    ensures ValidLivroCreate(d) <==> ValidLivroUpdateNonNull(FullLivroUpdate(d))
    ensures ValidLivroCreate(d) <==> ValidLivroUpdate(FullLivroUpdate(d))
    ensures ValidCategoriaCreate(c) <==> ValidCategoriaUpdateNonNull(FullCategoriaUpdate(c))
    ensures ValidCategoriaCreate(c) <==> ValidCategoriaUpdate(FullCategoriaUpdate(c))
    ensures ValidLivroUpdateNonNull(EmptyLivroUpdate)
    ensures ValidCategoriaUpdateNonNull(EmptyCategoriaUpdate)
  {
  }
}

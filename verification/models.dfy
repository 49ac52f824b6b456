/** The two tables of the database: `livros` and `categorias`, with
    `livros.categoria_id` a nullable foreign key into `categorias.id`. */
module Models {
  import opened Wrappers

  /** A row of `livros`. Apart from the primary key every column is nullable
      and carries no length or range constraint of its own. */
  datatype Livro = Livro(
    id: int,
    titulo: Option<string>,
    autor: Option<string>,
    anoPublicacao: Option<int>,
    categoriaId: Option<int>)

  /** A row of `categorias`. */
  datatype Categoria = Categoria(
    id: int,
    nome: Option<string>,
    descricao: Option<string>)

  /** The database: each table maps a primary key to the row filed under it. */
  datatype Store = Store(livros: map<int, Livro>, categorias: map<int, Categoria>)

  const Empty: Store := Store(map[], map[])

  /** `id` is the primary key of both tables: every row is filed under its own id. */
  predicate Keyed(s: Store) {
    && (forall k :: k in s.livros ==> s.livros[k].id == k)
    && (forall k :: k in s.categorias ==> s.categorias[k].id == k)
  }

  /** The foreign key of one book row holds in `s`: it is null, or names a category of `s`. */
  predicate LinksLiveCategoria(s: Store, l: Livro) {
    l.categoriaId.None? || l.categoriaId.value in s.categorias
  }

  /** Referential integrity: every stored book's foreign key holds. */
  predicate ReferentialIntegrity(s: Store) {
    forall k :: k in s.livros ==> LinksLiveCategoria(s, s.livros[k])
  }

  /** The database's integrity check, consulted when a book row is written into
      a store: whether the commit goes through. The database configuration is not
      part of this model, so the check is a parameter of the operations. */
  type RowCheck = (Store, Livro) -> bool

  /** The check rejects every book row whose foreign key would dangle. */
  ghost predicate EnforcesForeignKey(accepts: RowCheck) {
    forall t, l :: accepts(t, l) ==> LinksLiveCategoria(t, l)
  }

  /** `Categoria.livros`: the books of the category with id `categoriaId`. */
  function LivrosOf(s: Store, categoriaId: int): set<Livro> {
    set k | k in s.livros && s.livros[k].categoriaId == Some(categoriaId) :: s.livros[k]
  }

  /** `Livro.categoria`: the category a book row points at, if it exists. */
  function CategoriaOf(s: Store, l: Livro): Option<Categoria> {
    if l.categoriaId.Some? && l.categoriaId.value in s.categorias
    then Some(s.categorias[l.categoriaId.value])
    else None
  }

  /** No two stored books share an id, and no two stored categories do. */
  lemma KeyedIdsAreUnique(s: Store)
    requires Keyed(s)
    ensures forall a, b :: a in s.livros && b in s.livros && s.livros[a].id == s.livros[b].id ==> a == b
    ensures forall a, b :: a in s.categorias && b in s.categorias && s.categorias[a].id == s.categorias[b].id ==> a == b
  {
  }

  /** `Categoria.livros` and `Livro.categoria` are two views of one relation:
      a stored book is among a stored category's books exactly when that
      category is the book's category. */
  lemma RelationViewsAgree(s: Store, c: int, b: int)
    requires Keyed(s)
    requires c in s.categorias
    requires b in s.livros
    ensures s.livros[b] in LivrosOf(s, c) <==> CategoriaOf(s, s.livros[b]) == Some(s.categorias[c])
  {
    if CategoriaOf(s, s.livros[b]) == Some(s.categorias[c]) {
      var x := s.livros[b].categoriaId.value;
      assert s.categorias[x].id == x && s.categorias[c].id == c;
    }
  }

  /** Removing a category that no book belongs to cannot leave a foreign key
      dangling. */
  lemma UnreferencedRemovalKeepsIntegrity(s: Store, id: int)
    requires ReferentialIntegrity(s)
    requires LivrosOf(s, id) == {}
    ensures ReferentialIntegrity(s.(categorias := s.categorias - {id}))
  {
    var t := s.(categorias := s.categorias - {id});
    forall k | k in t.livros
      ensures LinksLiveCategoria(t, t.livros[k])
    {
      assert LinksLiveCategoria(s, s.livros[k]);
      assert s.livros[k] !in LivrosOf(s, id);
    }
  }
}

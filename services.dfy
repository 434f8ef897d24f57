/** The category service (Services.kt): look up one active category, add a
    category, and list every category for the admin view. */
module Services {
  import opened Wrappers
  import opened Entities
  import opened Exceptions
  import opened Repository

  /** A request to create a category. Its description has no column to go to
      and is dropped. */
  datatype CategoryRequest = CategoryRequest(name: string, description: string, order: int)

  datatype CategoryResponse = CategoryResponse(id: int, name: string, order: int)

  datatype ProductResponse = ProductResponse(id: int, name: string)

  /** The admin view of a stored category. */
  function ToAdminResponse(c: Entity<Category>): CategoryResponse
    requires c.base.id.Some?
  {
    CategoryResponse(c.base.id.value, c.fields.name, c.fields.order)
  }

  /** The admin view loses only the `deleted` flag: two stored categories give
      the same response exactly when they agree on id, name and order. */
  lemma AdminResponseDeterminesRecord(a: Entity<Category>, b: Entity<Category>)
    requires a.base.id.Some? && b.base.id.Some?
    ensures ToAdminResponse(a) == ToAdminResponse(b) <==> a.base.id == b.base.id && a.fields == b.fields
  {
  }

  class CategoryServiceImpl {
    const categoryRepository: BaseRepository<Category>
    const productRepository: BaseRepository<Product>

    constructor (categoryRepository: BaseRepository<Category>, productRepository: BaseRepository<Product>)
      ensures this.categoryRepository == categoryRepository
      ensures this.productRepository == productRepository
    {
      this.categoryRepository := categoryRepository;
      this.productRepository := productRepository;
    }

    /** Every stored category, trashed ones included, one response per row in
        store order. The product list the source builds first is thrown away,
        so it changes neither the result nor any state. */
    method GetAllCategories(language: string) returns (r: seq<CategoryResponse>)
      requires categoryRepository.Valid() && productRepository.Valid()
      ensures forall k :: k in categoryRepository.rows ==>
        CategoryResponse(k, categoryRepository.rows[k].fields.name, categoryRepository.rows[k].fields.order) in r
      ensures forall i :: 0 <= i < |r| ==>
        && r[i].id in categoryRepository.rows
        && r[i].name == categoryRepository.rows[r[i].id].fields.name
        && r[i].order == categoryRepository.rows[r[i].id].fields.order
      ensures forall i, j :: 0 <= i < j < |r| ==> r[i].id < r[j].id
    {
      var products := productRepository.FindAll();
      var discarded := seq(|products|, i requires 0 <= i < |products| && products[i].base.id.Some? =>
        ProductResponse(products[i].base.id.value, Localized(products[i].fields.name, language)));
      var categories := categoryRepository.FindAll();
      r := seq(|categories|, i requires 0 <= i < |categories| && categories[i].base.id.Some? =>
        ToAdminResponse(categories[i]));
      forall k | k in categoryRepository.rows
        ensures CategoryResponse(k, categoryRepository.rows[k].fields.name, categoryRepository.rows[k].fields.order) in r
      {
        var i :| 0 <= i < |categories| && categories[i] == categoryRepository.rows[k];
        assert r[i] == ToAdminResponse(categories[i]);
      }
    }

    /** The active category `id`, or `CategoryNotFoundException` when it is
        absent or trashed. */
    function GetOne(id: int): (r: Result<CategoryResponse, ShopAppException>)
      reads categoryRepository
      requires categoryRepository.Valid()
      ensures r.Success? <==> id in categoryRepository.rows && !categoryRepository.rows[id].base.deleted
      ensures r.Success? ==> r.value == CategoryResponse(id, categoryRepository.rows[id].fields.name, categoryRepository.rows[id].fields.order)
      ensures r.Failure? ==> r.error == CategoryNotFoundException
    {
      match categoryRepository.FindByIdAndDeletedFalse(id)
      case Some(c) => Success(ToAdminResponse(c))
      case None => Failure(CategoryNotFoundException)
    }

    /** Saves a new, active category with the request's name and order under
        the next id; every existing row is kept. */
    method Add(request: CategoryRequest)
      requires categoryRepository.Valid()
      modifies categoryRepository
      ensures categoryRepository.Valid()
      ensures var id := old(categoryRepository.nextId);
        && categoryRepository.rows == old(categoryRepository.rows)[id := Entity(BaseEntity(Some(id), false), Category(request.name, request.order))]
        && id !in old(categoryRepository.rows)
        && categoryRepository.FindAll() == old(categoryRepository.FindAll()) + [categoryRepository.rows[id]]
    {
      var _ := categoryRepository.Save(New(Category(request.name, request.order)));
    }
  }
}

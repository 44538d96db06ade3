/**
 * The records the core stores: a Dvd row and an application user, and the two
 * enumerations they carry.
 */
module Entities {
  import opened Common
  import opened Uuids

  /**
   * DvdGenre. Only the constants the service and its tests use are listed;
   * nothing proved below depends on how many there are, only on their names
   * being distinct strings of upper-case letters and underscores.
   */
  datatype Genre = Adventure | ScienceFiction | Thriller {
    /** Enum.name() */
    function Name(): string {
      match this
      case Adventure => "ADVENTURE"
      case ScienceFiction => "SCIENCE_FICTION"
      case Thriller => "THRILLER"
    }
  }

  const AllGenres: seq<Genre> := [Adventure, ScienceFiction, Thriller]

  /** UserRole: every constant's name carries the prefix "ROLE_". */
  datatype Role = RoleEmployee | RoleCustomer {
    /** Enum.name() */
    function Name(): string {
      match this
      case RoleEmployee => "ROLE_EMPLOYEE"
      case RoleCustomer => "ROLE_CUSTOMER"
    }
  }

  const AllRoles: seq<Role> := [RoleEmployee, RoleCustomer]

  /**
   * A dvd. `id` is null until the database has assigned one; two dvds are equal
   * when all four fields are. The DTO handed back to callers copies these four
   * fields one for one, so it is the same value here.
   */
  datatype Dvd = Dvd(id: Option<Uuid>, title: string, genre: Genre, quantity: int)

  /** An application user; `id` is null until the database has assigned one. */
  datatype User = User(id: Option<int>, firstname: string, lastname: string, email: string,
                       password: string, role: Role)
}

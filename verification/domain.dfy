/** The persisted records (APP/Domain) and the store that holds them. A record carries no
    key of its own: a table maps each primary key to its record. */
module Domain {
  import opened Options

  /** `DateTime` values are only stored and copied; an integer tick count stands for them. */
  type DateTime = int

  /** `decimal(18,2)` amounts are only stored and copied; an integer stands for them. */
  type Decimal = int

  /** The `Genders` enumeration, carried as its underlying integer. */
  datatype Genders = Genders(code: int)

  datatype Director = Director(firstName: string, lastName: string, isRetired: bool)

  datatype Genre = Genre(name: string)

  datatype Group = Group(name: string, description: Option<string>)

  datatype Role = Role(name: string)

  datatype Movie = Movie(
    name: string,
    releaseDate: Option<DateTime>,
    totalRevenue: Decimal,
    directorId: Option<int>)

  datatype User = User(
    userName: string,
    password: Option<string>,
    firstName: Option<string>,
    lastName: Option<string>,
    gender: Genders,
    birthDate: Option<DateTime>,
    registrationDate: DateTime,
    score: Decimal,
    isActive: bool,
    address: Option<string>,
    countryId: Option<int>,
    cityId: Option<int>,
    groupId: Option<int>)

  /** A join row linking a movie to one of its genres. */
  datatype MovieGenre = MovieGenre(movieId: int, genreId: int)

  /** A join row linking a user to one of its roles. */
  datatype UserRole = UserRole(userId: int, roleId: int)

  /** The database: one table per entity, keyed by primary key, and the two join tables. */
  datatype Store = Store(
    directors: map<int, Director>,
    genres: map<int, Genre>,
    groups: map<int, Group>,
    roles: map<int, Role>,
    movies: map<int, Movie>,
    users: map<int, User>,
    movieGenres: seq<MovieGenre>,
    userRoles: seq<UserRole>)

  /** How a director's name is displayed: first and last name separated by one space. */
  function FullName(firstName: string, lastName: string): (r: string)
    ensures |r| == |firstName| + 1 + |lastName|
    ensures r[..|firstName|] == firstName && r[|firstName|] == ' ' && r[|firstName| + 1..] == lastName
  {
    firstName + " " + lastName
  }
}

/** The transfer objects (APP/Models): what callers send (requests), what they read back
    (responses), and the outcome of every command. Formatted display strings for dates and
    amounts are not modelled. */
module Models {
  import opened Options
  import opened Domain

  /** The outcome of a create, update or delete command. */
  datatype CommandResponse = CommandResponse(isSuccessful: bool, message: string, id: int)

  function Error(message: string): CommandResponse {
    CommandResponse(false, message, 0)
  }

  function Success(message: string, id: int): CommandResponse {
    CommandResponse(true, message, id)
  }

  /** A command's effect: the store after it and the response it returns. */
  datatype Transition = Transition(store: Store, result: CommandResponse)

  datatype DirectorRequest = DirectorRequest(id: int, firstName: string, lastName: string, isRetired: bool)

  datatype DirectorResponse = DirectorResponse(
    id: int,
    firstName: string,
    lastName: string,
    isRetired: bool,
    isRetiredF: string,
    movieCount: nat,
    movieNames: string)
  {
    function FullName(): string {
      Domain.FullName(firstName, lastName)
    }
  }

  datatype GenreRequest = GenreRequest(id: int, name: string)

  datatype GenreResponse = GenreResponse(id: int, name: string)

  datatype GroupRequest = GroupRequest(id: int, name: string, description: Option<string>)

  datatype GroupResponse = GroupResponse(id: int, name: string, description: Option<string>)

  datatype RoleRequest = RoleRequest(id: int, name: string)

  datatype RoleResponse = RoleResponse(id: int, name: string)

  datatype MovieRequest = MovieRequest(
    id: int,
    name: string,
    releaseDate: Option<DateTime>,
    totalRevenue: Decimal,
    directorId: Option<int>,
    genreIds: Option<seq<int>>)

  datatype MovieResponse = MovieResponse(
    id: int,
    name: string,
    releaseDate: Option<DateTime>,
    totalRevenue: Decimal,
    directorName: string,
    genreNames: string,
    genreIds: seq<int>)

  datatype UserRequest = UserRequest(
    id: int,
    userName: string,
    password: Option<string>,
    firstName: Option<string>,
    lastName: Option<string>,
    gender: Genders,
    birthDate: Option<DateTime>,
    score: Decimal,
    isActive: bool,
    address: Option<string>,
    countryId: Option<int>,
    cityId: Option<int>,
    groupId: Option<int>)

  datatype UserResponse = UserResponse(
    id: int,
    userName: string,
    firstName: Option<string>,
    lastName: Option<string>,
    gender: Genders,
    birthDate: Option<DateTime>,
    registrationDate: DateTime,
    score: Decimal,
    isActive: bool,
    address: Option<string>,
    groupName: string)
}

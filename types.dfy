/** The records the service exchanges with the REST API and with its views. */
module Types {

  /** One user as the users endpoint returns it. */
  datatype RawUserData = RawUserData(
    id: int,
    name: string,
    username: string,
    email: string,
    address: Address,
    phone: string,
    website: string,
    company: Company)

  datatype Geo = Geo(lat: string, lng: string)

  datatype Address = Address(street: string, suite: string, city: string, zipcode: string, geo: Geo)

  datatype Company = Company(name: string, catchPhrase: string, bs: string)

  /** The part of a user the view model keeps. */
  datatype UserData = UserData(id: int, name: string)

  datatype UserPost = UserPost(userId: int, id: int, title: string, body: string)

  datatype UserComment = UserComment(postId: int, id: int, name: string, email: string, body: string)

  /** One distinct word (in its first-seen spelling) and how often it occurs. */
  datatype SortedAndCountedWord = SortedAndCountedWord(word: string, count: nat)

  /** The word-frequency breakdown of a list of comments. */
  datatype WordFrequency = WordFrequency(
    totalWordCount: nat,
    sortedAndCountedWords: seq<SortedAndCountedWord>,
    highestCount: nat)

  /** The single view-model record the service broadcasts. */
  datatype UserViewModel = UserViewModel(
    users: seq<UserData>,
    searchTerm: string,
    activeUserComments: seq<UserComment>,
    activeUserPosts: seq<UserPost>,
    loading: bool,
    wordFrequency: WordFrequency)

  /** The sort key: the `count` property of a counted word. */
  function Count(w: SortedAndCountedWord): int
  {
    w.count
  }

  /** The way a computation can fail: reading a property of a missing array element. */
  datatype Error = TypeError

  datatype Option<T> = None | Some(value: T)

  datatype Result<T> = Success(value: T) | Failure(error: Error)
}

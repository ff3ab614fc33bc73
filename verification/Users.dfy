/** A user's row, as far as sign-in goes. */
module Users {
  import opened Prelude

  /** A point in time. */
  datatype Time = Time(seconds: int, nanos: int) {
    function Nanos(): int { seconds * 1_000_000_000 + nanos }
  }

  datatype Token = Token(id: int64, lastSeen: Option<Time>)

  datatype User = User(lastSeen: Option<Time>, modified: Time, nextTokenId: int64, tokens: seq<Token>)

  predicate HasToken(tokens: seq<Token>, id: int64) {
    exists i :: 0 <= i < |tokens| && tokens[i].id == id
  }

  predicate DistinctIds(tokens: seq<Token>) {
    forall i, k :: 0 <= i < k < |tokens| ==> tokens[i].id != tokens[k].id
  }
}

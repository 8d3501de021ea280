/**
 * The server's record of a connected player (the server's Client.h): a username and
 * a score.  The socket and address it also holds are not part of this model.
 */
module Player {

  class Client {
    var username: string
    var score: int

    /** A new player has no username yet and a score of 0. */
    constructor ()
      ensures username == "" && score == 0
    {
      username := "";
      score := 0;
    }

    /** Replaces the username; the score is untouched. */
    method SetUsername(username: string)
      modifies this`username
      ensures this.username == username
    {
      this.username := username;
    }

    /** One more point; the username is untouched. */
    method IncrementScore()
      modifies this`score
      ensures score == old(score) + 1
    {
      score := score + 1;
    }

    /** `operator==`: two players are the same player when their usernames are equal. */
    predicate Equals(other: Client)
      reads this, other
      ensures Equals(other) <==> username == other.username
    {
      username == other.username
    }
  }
}

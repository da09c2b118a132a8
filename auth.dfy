/** Caller authentication against the configured token list. */
module Auth {
  import opened NotifyTypes

  /** Linear scan of the token list with an early return on the first equal token. */
  method CheckRequestToken(config: Config, token: string) returns (ok: bool)
    ensures ok <==> token in config.tokens
  {
    for i := 0 to |config.tokens|
      invariant forall j | 0 <= j < i :: config.tokens[j] != token
    {
      if config.tokens[i] == token {
        return true;
      }
    }
    return false;
  }
}

/** The constants of the client that carry behaviour. The prompt texts are
    opaque to the model; only the loading messages matter, and of those only
    how many there are. */
module Constants {

  const LoadingMessages: seq<string> := [
    "Digesting your notes...",
    "Identifying key concepts...",
    "Constructing realistic scenarios...",
    "Formulating tough challenges...",
    "Polishing the solutions...",
    "Preparing your mental workout..."
  ]
}

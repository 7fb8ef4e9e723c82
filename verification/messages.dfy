/** The conversation messages the agents exchange (LangChain's message
    classes), reduced to what the modelled code reads: the text, the tool
    calls of an AI message and the name of a human message. */
module Messages {
  import opened Results

  /** One tool call requested by an AI message; its arguments are a
      dictionary from argument name to text. */
  datatype ToolCall = ToolCall(name: string, args: seq<(string, string)>)

  datatype Message =
    | Human(content: string, name: Option<string>)
    | Ai(content: string, toolCalls: seq<ToolCall>)
    | Tool(content: string)
    | System(content: string)
}

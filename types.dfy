/** The records shared between the screens of the wizard (types.ts). */
module Types {

  /** The five screens of the wizard; exactly one is active at a time. */
  datatype Phase = INITIAL | CHATTING | GENERATING | RESULT | ERROR

  /** Who wrote a chat message. */
  datatype Role = Model | User

  /** One entry of the chat transcript shown to the user. */
  datatype Message = Message(role: Role, text: string)

  /** One answered question. */
  datatype Answer = Answer(question: string, answer: string)

  function ModelSays(text: string): (m: Message) { Message(Model, text) }

  function UserSays(text: string): (m: Message) { Message(User, text) }
}

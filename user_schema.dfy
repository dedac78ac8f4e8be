/** The User document (src/users/user.schema.ts) and its creation from the sign-up
    body. */
module UserSchema {
  import opened Outcomes
  import ObjectIds
  import CreateUserDtos

  type Id = ObjectIds.Id

  /** `assignedTasks` holds Task references; `createdAt` and `updatedAt` are
      maintained by `timestamps: true`. */
  datatype User = User(
    firstName: string,
    lastName: string,
    image: Option<string>,
    email: string,
    password: string,
    assignedTasks: seq<Id>,
    role: Option<string>,
    createdAt: int,
    updatedAt: int)

  predicate HasRequiredFields(u: User) {
    u.firstName != "" && u.lastName != "" && u.email != "" && u.password != ""
  }

  /** `new userModel(dto).save()` at time `now`: the DTO's fields are stored as given,
      `assignedTasks` starts empty, and the `required` validators run first. */
  function NewUser(dto: CreateUserDtos.CreateUserDto, now: int): (r: Result<User>)
    ensures r.Success? <==>
      dto.firstName != "" && dto.lastName != "" && dto.email != "" && dto.password != ""
    ensures r.Success? ==>
      && HasRequiredFields(r.value)
      && r.value.firstName == dto.firstName && r.value.lastName == dto.lastName
      && r.value.email == dto.email && r.value.password == dto.password
      && r.value.image == dto.image && r.value.role == dto.role
      && r.value.assignedTasks == []
      && r.value.createdAt == now && r.value.updatedAt == now
  {
    var u := User(dto.firstName, dto.lastName, dto.image, dto.email, dto.password, [], dto.role, now, now);
    if HasRequiredFields(u) then Success(u) else Failure(Unexpected)
  }

  /** A sign-up body that passes its declared validation also passes the schema's
      `required` checks. */
  lemma ValidDtoCreatesUser(dto: CreateUserDtos.CreateUserDto, isEmail: string -> bool, now: int)
    requires CreateUserDtos.IsValid(dto, isEmail)
    ensures NewUser(dto, now).Success?
  {
  }
}
